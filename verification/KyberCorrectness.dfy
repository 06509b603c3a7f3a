/** Kyber agreement: when exactly cpa_decrypt recovers the message, and that cca_decrypt then agrees with cca_encrypt. */
module KyberCorrectness {
  import opened Wrappers
  import opened BitStream
  import opened Congruence
  import opened QuotientRing
  import opened TransformTree
  import opened PolyVector
  import opened KyberTables
  import opened KyberNtt
  import opened KyberPoly
  import opened KyberCodec
  import opened KyberSampling
  import opened KyberSpec

  // ----- (A s) q = s (A^T q) -----

  lemma ZeroTimes(q: Poly)
    requires |q| == DEGREE
    ensures MulMod(-1, Zero(DEGREE), q) == Zero(DEGREE) && MulMod(-1, q, Zero(DEGREE)) == Zero(DEGREE)
  {
    hide MulMod, Zero;
    MulModCommutes(-1, Zero(DEGREE), q);
    MulModZeroRight(-1, q, DEGREE);
  }

  /** s_0 (A_i0 q) + ... + s_(m-1) (A_i(m-1) q). */
  function Weighted(o: Oracle, rho: seq<int>, i: nat, s: seq<int>, q: Poly, m: nat): (p: Poly)
    requires IsOracle(o) && m * DEGREE <= |s| && |q| == DEGREE
    ensures |p| == DEGREE
  {
    if m == 0 then Zero(DEGREE)
    else Add(Weighted(o, rho, i, s, q, m - 1), MulMod(-1, Row(s, m - 1), MulMod(-1, MatrixPoly(o, rho, i, m - 1), q)))
  }

  lemma {:induction false} RowDotTimes(o: Oracle, rho: seq<int>, i: nat, s: seq<int>, q: Poly, m: nat)
    requires IsOracle(o) && m * DEGREE <= |s| && |q| == DEGREE
    ensures MulMod(-1, RowDot(o, rho, false, i, s, m), q) == Weighted(o, rho, i, s, q, m)
  {
    hide MulMod, Add, Zero, MatrixPoly, IsOracle, Row;
    if m == 0 {
      ZeroTimes(q);
    } else {
      RowDotTimes(o, rho, i, s, q, m - 1);
      var a, r := MatrixPoly(o, rho, i, m - 1), Row(s, m - 1);
      MulModAddLeft(-1, RowDot(o, rho, false, i, s, m - 1), MulMod(-1, a, r), q);
      MulModSwap(-1, a, r, q);
      MulModCommutes(-1, MulMod(-1, a, q), r);
    }
  }

  /** The first n rows of A s times q. */
  function RowForm(o: Oracle, rho: seq<int>, s: seq<int>, q: seq<int>, n: nat, m: nat): (p: Poly)
    requires IsOracle(o) && m * DEGREE <= |s| && n * DEGREE <= |q|
    ensures |p| == DEGREE
  {
    if n == 0 then Zero(DEGREE)
    else Add(RowForm(o, rho, s, q, n - 1, m), MulMod(-1, RowDot(o, rho, false, n - 1, s, m), Row(q, n - 1)))
  }

  /** s times the first m rows of A^T q. */
  function ColumnForm(o: Oracle, rho: seq<int>, s: seq<int>, q: seq<int>, n: nat, m: nat): (p: Poly)
    requires IsOracle(o) && m * DEGREE <= |s| && n * DEGREE <= |q|
    ensures |p| == DEGREE
  {
    if m == 0 then Zero(DEGREE)
    else Add(ColumnForm(o, rho, s, q, n, m - 1), MulMod(-1, Row(s, m - 1), RowDot(o, rho, true, m - 1, q, n)))
  }

  lemma {:induction false} EmptyColumns(o: Oracle, rho: seq<int>, s: seq<int>, q: seq<int>, m: nat)
    requires IsOracle(o) && m * DEGREE <= |s|
    ensures ColumnForm(o, rho, s, q, 0, m) == Zero(DEGREE)
  {
    hide MulMod, Zero, IsOracle, Row, Add;
    if m > 0 {
      EmptyColumns(o, rho, s, q, m - 1);
      ZeroTimes(Row(s, m - 1));
      AddZeros(DEGREE);
    }
  }

  lemma {:induction false} OneMoreRow(o: Oracle, rho: seq<int>, s: seq<int>, q: seq<int>, n: nat, m: nat)
    requires IsOracle(o) && m * DEGREE <= |s| && 0 < n && n * DEGREE <= |q|
    ensures ColumnForm(o, rho, s, q, n, m) == Add(ColumnForm(o, rho, s, q, n - 1, m), Weighted(o, rho, n - 1, s, Row(q, n - 1), m))
  {
    hide MulMod, Zero, IsOracle, Row, Add, MatrixPoly;
    if m == 0 {
      AddZeros(DEGREE);
    } else {
      OneMoreRow(o, rho, s, q, n, m - 1);
      var r, x := Row(s, m - 1), Row(q, n - 1);
      var d, y := RowDot(o, rho, true, m - 1, q, n - 1), MulMod(-1, MatrixPoly(o, rho, n - 1, m - 1), x);
      MulModAddRight(-1, r, d, y);
      AddSwap(ColumnForm(o, rho, s, q, n - 1, m - 1), Weighted(o, rho, n - 1, s, x, m - 1), MulMod(-1, r, d), MulMod(-1, r, y));
    }
  }

  lemma {:induction false} Exchange(o: Oracle, rho: seq<int>, s: seq<int>, q: seq<int>, n: nat, m: nat)
    requires IsOracle(o) && m * DEGREE <= |s| && n * DEGREE <= |q|
    ensures RowForm(o, rho, s, q, n, m) == ColumnForm(o, rho, s, q, n, m)
  {
    hide MulMod, Zero, IsOracle, Row, Add, RowDot, Weighted, ColumnForm;
    if n == 0 {
      EmptyColumns(o, rho, s, q, m);
    } else {
      Exchange(o, rho, s, q, n - 1, m);
      OneMoreRow(o, rho, s, q, n, m);
      RowDotTimes(o, rho, n - 1, s, Row(q, n - 1), m);
    }
  }

  // ----- products with t and with u -----

  lemma {:induction false} PublicRow(o: Oracle, params: Params, rho: seq<int>, s: seq<int>, e: seq<int>, n: nat, i: nat)
    requires IsOracle(o) && |s| == |e| == params.ck * DEGREE && n <= params.ck && i < n
    ensures Row(PublicVector(o, params, rho, s, e, n), i) == Add(RowDot(o, rho, false, i, s, params.ck), Row(e, i))
  {
    hide IsOracle, Add, RowDot, Row;
    var t := PublicVector(o, params, rho, s, e, n - 1);
    RowsAppend(t, Add(RowDot(o, rho, false, n - 1, s, params.ck), Row(e, n - 1)), n - 1);
    if i < n - 1 {
      PublicRow(o, params, rho, s, e, n - 1, i);
    }
  }

  lemma {:induction false} PublicDot(o: Oracle, params: Params, rho: seq<int>, s: seq<int>, e: seq<int>, q: seq<int>, n: nat)
    requires IsOracle(o) && |s| == |e| == |q| == params.ck * DEGREE && n <= params.ck
    ensures Dot(PublicVector(o, params, rho, s, e, params.ck), q, n) == Add(RowForm(o, rho, s, q, n, params.ck), Dot(e, q, n))
  {
    hide IsOracle, Add, RowDot, Row, MulMod, Zero, PublicVector;
    if n == 0 {
      AddZeros(DEGREE);
    } else {
      PublicDot(o, params, rho, s, e, q, n - 1);
      PublicRow(o, params, rho, s, e, params.ck, n - 1);
      var x := Row(q, n - 1);
      MulModAddLeft(-1, RowDot(o, rho, false, n - 1, s, params.ck), Row(e, n - 1), x);
      AddSwap(RowForm(o, rho, s, q, n - 1, params.ck), Dot(e, q, n - 1),
              MulMod(-1, RowDot(o, rho, false, n - 1, s, params.ck), x), MulMod(-1, Row(e, n - 1), x));
    }
  }

  lemma RowOfAdd(a: seq<int>, b: seq<int>, i: nat)
    requires |a| == |b| && (i + 1) * DEGREE <= |a|
    ensures Row(Add(a, b), i) == Add(Row(a, i), Row(b, i))
  {
  }

  /** w is A^T q + f. */
  ghost predicate Columns(o: Oracle, rho: seq<int>, w: seq<int>, q: seq<int>, f: seq<int>, n: nat)
    requires IsOracle(o)
  {
    && |w| == |q| == |f| == n * DEGREE
    && forall j: nat :: j < n ==> Row(w, j) == Add(RowDot(o, rho, true, j, q, n), Row(f, j))
  }

  lemma {:induction false} SecretDot(o: Oracle, rho: seq<int>, s: seq<int>, w: seq<int>, q: seq<int>, f: seq<int>, n: nat, m: nat)
    requires IsOracle(o) && Columns(o, rho, w, q, f, n) && |s| == n * DEGREE && m <= n
    ensures Dot(s, w, m) == Add(ColumnForm(o, rho, s, q, n, m), Dot(s, f, m))
  {
    hide IsOracle, Add, RowDot, Row, MulMod, Zero;
    if m == 0 {
      AddZeros(DEGREE);
    } else {
      SecretDot(o, rho, s, w, q, f, n, m - 1);
      var r, d := Row(s, m - 1), RowDot(o, rho, true, m - 1, q, n);
      MulModAddRight(-1, r, d, Row(f, m - 1));
      AddSwap(ColumnForm(o, rho, s, q, n, m - 1), Dot(s, f, m - 1), MulMod(-1, r, d), MulMod(-1, r, Row(f, m - 1)));
    }
  }

  lemma {:induction false} UntransformedRow(h: seq<int>, n: nat, i: nat)
    requires n * DEGREE <= |h| && i < n
    ensures Row(Untransformed(h, n), i) == InverseTransform(Row(h, i))
  {
    hide InverseTransform, Row;
    RowsAppend(Untransformed(h, n - 1), InverseTransform(Row(h, n - 1)), n - 1);
    if i < n - 1 {
      UntransformedRow(h, n - 1, i);
    }
  }

  /** Products with what h carries. */
  lemma {:induction false} CarriedDot(h: seq<int>, v: seq<int>, w: seq<int>, n: nat, k: nat)
    requires Carries(h, v, n) && |w| == n * DEGREE && k <= n
    ensures SeqCong(Dot(Untransformed(h, n), w, k), Dot(v, w, k), Q)
  {
    hide InverseTransform, Row, Represents, MulMod, Add, Zero, SeqCong, Untransformed, Cong;
    if k == 0 {
      SeqCongRefl(Zero(DEGREE), Q);
    } else {
      CarriedDot(h, v, w, n, k - 1);
      UntransformedRow(h, n, k - 1);
      CarriedRow(h, v, n, k - 1);
      var a, b, x := InverseTransform(Row(h, k - 1)), Row(v, k - 1), Row(w, k - 1);
      SeqCongRefl(x, Q);
      CongIntro(-1, -1, Q, 0);
      MulModCong(-1, -1, a, b, x, x, Q);
      AddCong(Dot(Untransformed(h, n), w, k - 1), Dot(v, w, k - 1), MulMod(-1, a, x), MulMod(-1, b, x), Q);
    }
  }

  lemma CarriedRow(h: seq<int>, v: seq<int>, n: nat, i: nat)
    requires Carries(h, v, n) && i < n
    ensures SeqCong(InverseTransform(Row(h, i)), Row(v, i), Q)
  {
    hide InverseTransform, Row, SeqCong, IsTransform;
    assert Represents(Row(h, i), Row(v, i));
    InverseOfTransform(Row(v, i), Row(h, i));
  }

  // ----- the noise -----

  /** decompress(compress(p)) - p. */
  function RoundingError(d: nat, p: Poly): (e: Poly)
    requires IsWidth(d)
    ensures |e| == |p|
  {
    Sub(Decompressed(d, CompressedPoly(d, p)), p)
  }

  /** Modulo Q the rounding error is at most round(Q / 2^(d + 1)) in size. */
  lemma RoundingErrorSmall(d: nat, p: Poly, i: nat)
    requires IsWidth(d) && i < |p|
    ensures Abs(Centred(RoundingError(d, p)[i])) <= MaxError(d)
  {
    hide Cong, Compress, Decompress, Centred;
    var x := p[i] % Q;
    var e := CompressionError(d, x);
    var y := Decompress(d, Compress(d, x));
    CongMod(p[i], Q);
    CongIntro(e, e, Q, 0);
    CongAdd(x, p[i], e, e, Q);
    CongTrans(y, x + e, p[i] + e, Q);
    CongIntro(p[i], p[i], Q, 0);
    CongSub(y, p[i] + e, p[i], p[i], Q);
    assert RoundingError(d, p)[i] == y - p[i];
    CentredIs(y - p[i], e);
  }

  lemma CentredIs(t: int, e: int)
    requires Cong(t, e, Q) && -1664 <= e <= 1664
    ensures Centred(t) == e
  {
    hide Cong;
    CentredCong(t);
    CongTrans(Centred(t), t, e, Q);
    CongIntro(1664, 1664, Q, 0);
    CongAdd(Centred(t), e, 1664, 1664, Q);
    CongUnique(Centred(t) + 1664, e + 1664, Q);
  }

  /** The rounding errors of the first n rows of u. */
  function UError(o: Oracle, params: Params, rho: seq<int>, r: Ephemeral, n: nat): (e: seq<int>)
    requires IsOracle(o) && IsParams(params) && IsEphemeral(params, r) && n <= params.ck
    ensures |e| == n * DEGREE
  {
    if n == 0 then [] else UError(o, params, rho, r, n - 1) + RoundingError(params.du, URow(o, params, rho, r, n - 1))
  }

  /** e q + e2 + cv - s (e1 + cu), with cu and cv the rounding errors of u and v. */
  function NoisePoly(o: Oracle, params: Params, pk: seq<int>, s: seq<int>, e: seq<int>, r: Ephemeral, m: seq<int>): (p: Poly)
    requires IsOracle(o) && IsParams(params) && Bytes(pk, PkSize(params)) && |s| == |e| == params.ck * DEGREE
    requires IsEphemeral(params, r) && Bytes(m, 32)
    ensures |p| == DEGREE
  {
    hide UError, Dot, VPoly, RoundingError, Add, Sub;
    var cv := RoundingError(params.dv, VPoly(params, Decoded(pk, 12, params.ck), r, m));
    var cu := UError(o, params, PkRho(params, pk), r, params.ck);
    Sub(Add(Add(Dot(e, r.q, params.ck), r.e2), cv), Dot(s, Add(r.e1, cu), params.ck))
  }

  lemma {:induction false} UErrorRow(o: Oracle, params: Params, rho: seq<int>, r: Ephemeral, n: nat, i: nat)
    requires IsOracle(o) && IsParams(params) && IsEphemeral(params, r) && n <= params.ck && i < n
    ensures Row(UError(o, params, rho, r, n), i) == RoundingError(params.du, URow(o, params, rho, r, i))
  {
    hide RoundingError, Row, URow, IsOracle;
    RowsAppend(UError(o, params, rho, r, n - 1), RoundingError(params.du, URow(o, params, rho, r, n - 1)), n - 1);
    if i < n - 1 {
      UErrorRow(o, params, rho, r, n - 1, i);
    }
  }

  lemma {:induction false} CompressedURow(o: Oracle, params: Params, rho: seq<int>, r: Ephemeral, n: nat, i: nat)
    requires IsOracle(o) && IsParams(params) && IsEphemeral(params, r) && n <= params.ck && i < n
    ensures Row(CompressedU(o, params, rho, r, n), i) == CompressedPoly(params.du, URow(o, params, rho, r, i))
  {
    hide CompressedPoly, Row, URow, IsOracle;
    RowsAppend(CompressedU(o, params, rho, r, n - 1), CompressedPoly(params.du, URow(o, params, rho, r, n - 1)), n - 1);
    if i < n - 1 {
      CompressedURow(o, params, rho, r, n - 1, i);
    }
  }

  lemma DecompressedRow(d: nat, y: seq<int>, i: nat)
    requires IsWidth(d) && (i + 1) * DEGREE <= |y|
    ensures Row(Decompressed(d, y), i) == Decompressed(d, Row(y, i))
  {
    hide Decompress;
  }

  /** (c + d) + (w - (c + d)) with w = c + d + error, regrouped. */
  lemma ErrorSplits(w: Poly, c: Poly, d: Poly)
    requires |w| == |c| == |d|
    ensures w == Add(d, Add(c, Sub(w, Add(c, d))))
  {
  }

  /** The decompressed u is A^T q + (e1 + cu). */
  lemma ReceivedU(o: Oracle, params: Params, rho: seq<int>, r: Ephemeral)
    requires IsOracle(o) && IsParams(params) && IsEphemeral(params, r)
    ensures Columns(o, rho, Decompressed(params.du, CompressedU(o, params, rho, r, params.ck)), r.q,
                    Add(r.e1, UError(o, params, rho, r, params.ck)), params.ck)
  {
    hide IsOracle, Row, CompressedPoly, Decompressed, CompressedU, UError, Add, Sub, RowDot;
    var y, c := CompressedU(o, params, rho, r, params.ck), UError(o, params, rho, r, params.ck);
    forall j: nat | j < params.ck
      ensures Row(Decompressed(params.du, y), j) == Add(RowDot(o, rho, true, j, r.q, params.ck), Row(Add(r.e1, c), j))
    {
      CompressedURow(o, params, rho, r, params.ck, j);
      UErrorRow(o, params, rho, r, params.ck, j);
      DecompressedRow(params.du, y, j);
      RowOfAdd(r.e1, c, j);
      ErrorSplits(Row(Decompressed(params.du, y), j), Row(r.e1, j), RowDot(o, rho, true, j, r.q, params.ck));
    }
  }

  /** v + cv - (f + g) regrouped, where v = (f + eq + e2) + msg. */
  lemma NoiseRegroups(w: Poly, f: Poly, eq: Poly, e2: Poly, msg: Poly, g: Poly)
    requires |w| == |f| == |eq| == |e2| == |msg| == |g|
    ensures var v := Add(Add(Add(f, eq), e2), msg);
      Sub(w, Add(f, g)) == Add(Sub(Add(Add(eq, e2), Sub(w, v)), g), msg)
  {
  }

  /** As above, with v and the subtracted product known only modulo Q. */
  lemma NoiseRegroupsCong(w: Poly, v: Poly, f: Poly, eq: Poly, e2: Poly, msg: Poly, d: Poly, g: Poly)
    requires |w| == |v| == |f| == |eq| == |e2| == |msg| == |d| == |g|
    requires SeqCong(v, Add(Add(Add(f, eq), e2), msg), Q) && SeqCong(d, Add(f, g), Q)
    ensures SeqCong(Sub(w, d), Add(Sub(Add(Add(eq, e2), Sub(w, v)), g), msg), Q)
  {
    hide SeqCong, Add, Sub;
    var v' := Add(Add(Add(f, eq), e2), msg);
    SeqCongRefl(w, Q);
    SeqCongRefl(g, Q);
    SeqCongRefl(msg, Q);
    SeqCongRefl(Add(eq, e2), Q);
    SubCong(w, w, d, Add(f, g), Q);
    NoiseRegroups(w, f, eq, e2, msg, g);
    SeqCongSym(v, v', Q);
    SubCong(w, w, v', v, Q);
    AddCong(Add(eq, e2), Add(eq, e2), Sub(w, v'), Sub(w, v), Q);
    SubCong(Add(Add(eq, e2), Sub(w, v')), Add(Add(eq, e2), Sub(w, v)), g, g, Q);
    AddCong(Sub(Add(Add(eq, e2), Sub(w, v')), g), Sub(Add(Add(eq, e2), Sub(w, v)), g), msg, msg, Q);
    SeqCongTrans(Sub(w, d), Sub(w, Add(f, g)), Add(Sub(Add(Add(eq, e2), Sub(w, v)), g), msg), Q);
  }

  lemma SentV(o: Oracle, params: Params, pk: seq<int>, s: seq<int>, e: seq<int>, r: Ephemeral, m: seq<int>, sk: seq<int>)
    requires IsOracle(o) && IsParams(params) && IsKeyPair(o, params, sk, pk, s, e) && IsEphemeral(params, r) && Bytes(m, 32)
    ensures SeqCong(VPoly(params, Decoded(pk, 12, params.ck), r, m),
                    Add(Add(Add(ColumnForm(o, PkRho(params, pk), s, r.q, params.ck, params.ck), Dot(e, r.q, params.ck)), r.e2),
                        Decompressed(1, MessageBits(m))), Q)
  {
    hide IsOracle, Add, Dot, Carries, SeqCong, MatrixExpands, ColumnForm, RowForm, PublicVector, Decoded, Untransformed,
      Decompressed, MessageBits, PkRho;
    var h, n, rho := Decoded(pk, 12, params.ck), params.ck, PkRho(params, pk);
    var t := PublicVector(o, params, rho, s, e, n);
    CarriedDot(h, t, r.q, n, n);
    PublicDot(o, params, rho, s, e, r.q, n);
    Exchange(o, rho, s, r.q, n, n);
    SeqCongRefl(r.e2, Q);
    var msg := Decompressed(1, MessageBits(m));
    SeqCongRefl(msg, Q);
    var d, f := Dot(Untransformed(h, n), r.q, n), Add(ColumnForm(o, rho, s, r.q, n, n), Dot(e, r.q, n));
    AddCong(d, f, r.e2, r.e2, Q);
    AddCong(Add(d, r.e2), Add(f, r.e2), msg, msg, Q);
  }

  /** What cpa_decrypt computes before rounding is the message plus the noise. */
  lemma RemainderIsNoisy(o: Oracle, params: Params, sk: seq<int>, pk: seq<int>, s: seq<int>, e: seq<int>,
                         r: Ephemeral, m: seq<int>)
    requires IsOracle(o) && IsParams(params) && IsKeyPair(o, params, sk, pk, s, e) && IsEphemeral(params, r) && Bytes(m, 32)
    ensures var u := CompressedU(o, params, PkRho(params, pk), r, params.ck);
      var v := CompressedPoly(params.dv, VPoly(params, Decoded(pk, 12, params.ck), r, m));
      SeqCong(Remainder(params, Decoded(sk, 12, params.ck), u, v),
              Add(NoisePoly(o, params, pk, s, e, r, m), Decompressed(1, MessageBits(m))), Q)
  {
    hide IsOracle, Add, Sub, Dot, Carries, SeqCong, MatrixExpands, ColumnForm, PublicVector, Decoded, Untransformed,
      Decompressed, MessageBits, PkRho, VPoly, CompressedU, CompressedPoly, UError, Columns;
    var n, rho := params.ck, PkRho(params, pk);
    var hs, v := Decoded(sk, 12, n), VPoly(params, Decoded(pk, 12, n), r, m);
    var w, y := Decompressed(params.dv, CompressedPoly(params.dv, v)), Decompressed(params.du, CompressedU(o, params, rho, r, n));
    var f := Add(r.e1, UError(o, params, rho, r, n));
    SentV(o, params, pk, s, e, r, m, sk);
    ReceivedU(o, params, rho, r);
    CarriedDot(hs, s, y, n, n);
    SecretDot(o, rho, s, y, r.q, f, n, n);
    NoiseRegroupsCong(w, v, ColumnForm(o, rho, s, r.q, n, n), Dot(e, r.q, n), r.e2, Decompressed(1, MessageBits(m)),
                      Dot(Untransformed(hs, n), y, n), Dot(s, f, n));
  }

  // ----- decryption -----

  /** Reading u and v back from a ciphertext. */
  lemma CtRoundTrip(params: Params, u: seq<int>, v: seq<int>)
    requires IsParams(params) && Encodable(u, params.ck, params.du) && Encodable(v, 1, params.dv)
    requires Normed(u) == u && Normed(v) == v
    ensures CtU(params, CtBytes(params, u, v)) == u && CtV(params, CtBytes(params, u, v)) == v
  {
    hide Encoded, Decoded, Encodable, Normed;
    var a, b := Encoded(u, params.ck, params.du), Encoded(v, 1, params.dv);
    DecodeOfEncode(u, params.ck, params.du, b);
    DecodeOfEncode(v, 1, params.dv, []);
    assert (a + b)[USize(params)..] == b && b + [] == b;
  }

  lemma CiphertextParts(o: Oracle, params: Params, pk: seq<int>, r: Ephemeral, m: seq<int>)
    requires IsOracle(o) && IsParams(params) && Bytes(pk, PkSize(params)) && IsEphemeral(params, r) && Bytes(m, 32)
    ensures var ct := Ciphertext(o, params, pk, r, m);
      && CtU(params, ct) == CompressedU(o, params, PkRho(params, pk), r, params.ck)
      && CtV(params, ct) == CompressedPoly(params.dv, VPoly(params, Decoded(pk, 12, params.ck), r, m))
  {
    hide IsOracle, CompressedU, CompressedPoly, VPoly, Decoded, PkRho, CtU, CtV, CtBytes, Normed, Fits;
    var u := CompressedU(o, params, PkRho(params, pk), r, params.ck);
    var v := CompressedPoly(params.dv, VPoly(params, Decoded(pk, 12, params.ck), r, m));
    CompressedUFits(o, params, PkRho(params, pk), r, params.ck);
    CompressedFits(params.dv, VPoly(params, Decoded(pk, 12, params.ck), r, m));
    CtRoundTrip(params, u, v);
  }

  /** Every noise coefficient stays in the window of its message bit. */
  ghost predicate Survives(m: seq<int>, noise: Poly)
    requires Bytes(m, 32) && |noise| == DEGREE
  {
    forall i :: 0 <= i < DEGREE ==> Tolerated(MessageBits(m)[i], Centred(noise[i]))
  }

  /** Noise of at most 831 in size never hurts. */
  lemma SmallNoiseSurvives(m: seq<int>, noise: Poly)
    requires Bytes(m, 32) && |noise| == DEGREE
    requires forall i :: 0 <= i < DEGREE ==> Abs(Centred(noise[i])) <= 831
    ensures Survives(m, noise)
  {
    hide Centred, MessageBits;
    forall i | 0 <= i < DEGREE ensures Tolerated(MessageBits(m)[i], Centred(noise[i])) {
      assert Abs(Centred(noise[i])) <= 831;
    }
  }

  lemma BitsDecide(p: Poly, n: Poly, m: seq<int>)
    requires |p| == |n| == DEGREE && Bytes(m, 32) && SeqCong(p, Add(n, Decompressed(1, MessageBits(m))), Q)
    ensures CompressedPoly(1, p) == MessageBits(m) <==> Survives(m, n)
  {
    hide Compress, Decompress, Tolerated, Centred, Cong, MessageBits;
    var b := MessageBits(m);
    forall i | 0 <= i < DEGREE ensures CompressedPoly(1, p)[i] == b[i] <==> Tolerated(b[i], Centred(n[i])) {
      CongMod(p[i], Q);
      CongTrans(p[i] % Q, p[i], n[i] + Decompress(1, b[i]), Q);
      BitSurvives(b[i], n[i], p[i] % Q);
    }
    assert CompressedPoly(1, p) == b <==> forall i :: 0 <= i < DEGREE ==> CompressedPoly(1, p)[i] == b[i];
  }

  /** Bytes and bits determine each other. */
  lemma MessageOfBits(y: seq<int>, m: seq<int>)
    requires Encodable(y, 1, 1) && Normed(y) == y && Bytes(m, 32)
    ensures Encoded(y, 1, 1) == m <==> y == MessageBits(m)
  {
    hide Encoded, Decoded, Normed, Fits;
    DecodeOfEncode(y, 1, 1, []);
    assert Encoded(y, 1, 1) + [] == Encoded(y, 1, 1);
    EncodeOfDecode(m, 1, 1);
  }

  /** cpa_decrypt returns the encrypted message if and only if every noise coefficient stays in its bit's window. */
  lemma DecryptionExact(o: Oracle, params: Params, sk: seq<int>, pk: seq<int>, s: seq<int>, e: seq<int>,
                        r: Ephemeral, m: seq<int>)
    requires IsOracle(o) && IsParams(params) && IsKeyPair(o, params, sk, pk, s, e) && IsEphemeral(params, r) && Bytes(m, 32)
    ensures Decryption(params, sk, Ciphertext(o, params, pk, r, m)) == m <==> Survives(m, NoisePoly(o, params, pk, s, e, r, m))
  {
    hide IsOracle, CompressedU, CompressedPoly, VPoly, Decoded, PkRho, CtU, CtV, Ciphertext, Normed, Fits, Remainder, NoisePoly,
      Survives, MessageBits, Encoded, Carries, MatrixExpands, SeqCong, Add;
    CiphertextParts(o, params, pk, r, m);
    RemainderIsNoisy(o, params, sk, pk, s, e, r, m);
    var ct := Ciphertext(o, params, pk, r, m);
    var p := Remainder(params, Decoded(sk, 12, params.ck), CtU(params, ct), CtV(params, ct));
    BitsDecide(p, NoisePoly(o, params, pk, s, e, r, m), m);
    CompressedFits(1, p);
    MessageOfBits(CompressedPoly(1, p), m);
  }

  lemma KeyPairShape(o: Oracle, params: Params, sk: seq<int>, pk: seq<int>, s: seq<int>, e: seq<int>)
    requires IsOracle(o) && IsParams(params) && IsKeyPair(o, params, sk, pk, s, e)
    ensures Bytes(sk, VectorSize(params)) && Bytes(pk, PkSize(params)) && |s| == |e| == params.ck * DEGREE
    ensures MatrixExpands(o, PkRho(params, pk), params.ck)
  {
    hide IsOracle, Carries, MatrixExpands;
  }

  // ----- encapsulation -----

  /** The noise of the encryption that cca_encrypt performs for random bytes rand. */
  function EncapsulationNoise(o: Oracle, params: Params, pk: seq<int>, s: seq<int>, e: seq<int>, rand: seq<int>): (p: Poly)
    requires IsOracle(o) && IsParams(params) && Bytes(pk, PkSize(params)) && |s| == |e| == params.ck * DEGREE
    ensures |p| == DEGREE
  {
    hide PreKey, NoisePoly, EphemeralOf, Coins;
    var hm := o.hash256(rand);
    NoisePoly(o, params, pk, s, e, EphemeralOf(o, params, Coins(PreKey(o, hm, o.hash256(pk)))), hm)
  }

  /** Ciphertext and shared secret of cca_encrypt. */
  function Encapsulation(o: Oracle, params: Params, pk: seq<int>, rand: seq<int>): (r: (seq<int>, seq<int>))
    requires IsOracle(o) && IsParams(params) && Bytes(pk, PkSize(params))
    ensures Bytes(r.0, CtSize(params)) && Bytes(r.1, 32)
  {
    hide PreKey, Ciphertext, EphemeralOf, SharedSecret, Coins;
    var hm := o.hash256(rand);
    var g := PreKey(o, hm, o.hash256(pk));
    var ct := Ciphertext(o, params, pk, EphemeralOf(o, params, Coins(g)), hm);
    (ct, SharedSecret(o, g[..32], ct))
  }

  /** cca_decrypt on the untouched ciphertext yields the shared secret of cca_encrypt, whenever the message survives the noise. */
  lemma Agreement(o: Oracle, params: Params, sk: seq<int>, s: seq<int>, e: seq<int>, rand: seq<int>)
    requires IsOracle(o) && IsParams(params) && Bytes(sk, SkSize(params)) && |s| == |e| == params.ck * DEGREE
    requires IsKeyPair(o, params, SkParts(params, sk).cpa, SkParts(params, sk).pk, s, e)
    requires SkParts(params, sk).h == o.hash256(SkParts(params, sk).pk)
    requires Survives(o.hash256(rand), EncapsulationNoise(o, params, SkParts(params, sk).pk, s, e, rand))
    ensures var r := Encapsulation(o, params, SkParts(params, sk).pk, rand);
      Decapsulation(o, params, sk, r.0) == Some(r.1)
  {
    hide Ciphertext, Decryption, IsKeyPair, NoisePoly, Survives, SkParts, PreKey, SharedSecret, EphemeralOf, MatrixExpands, PkRho, Coins;
    var k := SkParts(params, sk);
    var hm := o.hash256(rand);
    var g := PreKey(o, hm, k.h);
    var r := EphemeralOf(o, params, Coins(g));
    KeyPairShape(o, params, k.cpa, k.pk, s, e);
    DecryptionExact(o, params, k.cpa, k.pk, s, e, r, hm);
    var ct := Ciphertext(o, params, k.pk, r, hm);
    WholeCiphertext(params, ct);
  }

  lemma WholeCiphertext(params: Params, ct: seq<int>)
    requires Bytes(ct, CtSize(params))
    ensures ct[..CtSize(params)] == ct && Bytes(ct, |ct|) && |ct| >= CtSize(params)
  {
  }
}
