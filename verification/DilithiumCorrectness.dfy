/** Every signature that signature emits for a key of keypair is accepted by verify. */
module DilithiumCorrectness {
  import opened Wrappers
  import opened BitStream
  import opened Congruence
  import opened QuotientRing
  import opened TransformTree
  import opened PolyVector
  import opened DilithiumTables
  import opened DilithiumPoly
  import opened DilithiumRounding
  import opened DilithiumHints
  import opened DilithiumPacking
  import opened DilithiumSampling
  import opened DilithiumSpec
  import opened DilithiumScheme

  // ----- the ring identity A z - c t1 2^D = w - c s2 + c t0 -----

  /** z, y and s1 agree with z = y + c s1 on the first n polynomials. */
  ghost predicate Responds(z: seq<int>, y: seq<int>, s1: seq<int>, c: Poly, n: nat) {
    && |c| == DEGREE && n * DEGREE <= |z| && n * DEGREE <= |y| && n * DEGREE <= |s1|
    && forall j: nat :: j < n ==> Row(z, j) == ZRow(Row(y, j), Row(s1, j), c)
  }

  lemma TermOfResponse(y: Poly, s: Poly, c: Poly, a: Poly)
    requires |y| == |s| == |c| == |a| == DEGREE
    ensures SeqCong(MulMod(-1, ZRow(y, s, c), a), Add(MulMod(-1, y, a), MulMod(-1, MulMod(-1, s, a), c)), Q)
  {
    hide Cong, MulMod, SeqCong, ModQ, Add;
    var sc := MulMod(-1, s, c);
    ModQIsCong(Add(y, sc));
    SeqCongRefl(a, Q);
    CongIntro(-1, -1, Q, 0);
    MulModCong(-1, -1, ZRow(y, s, c), Add(y, sc), a, a, Q);
    MulModAddLeft(-1, y, sc, a);
    MulModSwap(-1, s, c, a);
  }

  lemma {:induction false} DotOfResponse(o: Oracle, rho: seq<int>, i: nat, z: seq<int>, y: seq<int>, s1: seq<int>,
                                         c: Poly, n: nat)
    requires IsOracle(o) && Responds(z, y, s1, c, n)
    ensures SeqCong(Dot(o, rho, i, z, n), Add(Dot(o, rho, i, y, n), MulMod(-1, Dot(o, rho, i, s1, n), c)), Q)
  {
    hide Cong, MulMod, SeqCong, Add, ZRow, MatrixPoly, Zero, IsOracle;
    if n == 0 {
      MulModOfZero(c);
      AddZeros(DEGREE);
      SeqCongRefl(Zero(DEGREE), Q);
    } else {
      DotOfResponse(o, rho, i, z, y, s1, c, n - 1);
      var a := MatrixPoly(o, rho, i, n - 1);
      var dy, ds := Dot(o, rho, i, y, n - 1), Dot(o, rho, i, s1, n - 1);
      var ty, ts := MulMod(-1, Row(y, n - 1), a), MulMod(-1, Row(s1, n - 1), a);
      TermOfResponse(Row(y, n - 1), Row(s1, n - 1), c, a);
      AddCong(Dot(o, rho, i, z, n - 1), Add(dy, MulMod(-1, ds, c)),
              MulMod(-1, Row(z, n - 1), a), Add(ty, MulMod(-1, ts, c)), Q);
      AddSwap(dy, MulMod(-1, ds, c), ty, MulMod(-1, ts, c));
      MulModAddLeft(-1, ds, ts, c);
    }
  }

  lemma MulModOfZero(c: Poly)
    requires |c| == DEGREE
    ensures MulMod(-1, Zero(DEGREE), c) == Zero(DEGREE)
  {
    hide MulMod, Zero;
    MulModCommutes(-1, Zero(DEGREE), c);
    MulModZeroRight(-1, c, DEGREE);
  }

  /** t1 2^D = t - t0. */
  lemma ShiftedT1(t: Poly, t1: Poly, t0: Poly)
    requires |t| == |t1| == |t0| == DEGREE
    requires forall m :: 0 <= m < DEGREE ==> t1[m] == P2rHigh(t[m]) && t0[m] == P2rLow(t[m])
    ensures Scale(8192, t1) == Sub(t, t0)
  {
  }

  lemma SubIsAdd(p: Poly, r: Poly)
    requires |p| == |r|
    ensures Sub(p, r) == Add(p, Scale(-1, r))
  {
  }

  lemma MulModSubLeft(p: Poly, r: Poly, c: Poly)
    requires |p| == |r| == |c| == DEGREE
    ensures MulMod(-1, Sub(p, r), c) == Sub(MulMod(-1, p, c), MulMod(-1, r, c))
  {
    hide MulMod, Add, Sub, Scale;
    SubIsAdd(p, r);
    MulModAddLeft(-1, p, Scale(-1, r), c);
    MulModScaleLeft(-1, -1, r, c);
    SubIsAdd(MulMod(-1, p, c), MulMod(-1, r, c));
  }

  /** c t1 2^D, for d = A s1 and t = d + s2 reduced. */
  lemma PublicPart(d: Poly, s2: Poly, t1: Poly, t0: Poly, c: Poly)
    requires |d| == |s2| == |t1| == |t0| == |c| == DEGREE
    requires forall m :: 0 <= m < DEGREE ==>
      t1[m] == P2rHigh(ModQ(Add(d, s2))[m]) && t0[m] == P2rLow(ModQ(Add(d, s2))[m])
    ensures SeqCong(MulMod(-1, Scale(8192, t1), c),
                    Sub(Add(MulMod(-1, d, c), MulMod(-1, s2, c)), MulMod(-1, t0, c)), Q)
  {
    hide Cong, MulMod, SeqCong, Add, Sub, Scale, ModQ, P2rHigh, P2rLow;
    var t := ModQ(Add(d, s2));
    ShiftedT1(t, t1, t0);
    MulModSubLeft(t, t0, c);
    ModQIsCong(Add(d, s2));
    SeqCongRefl(c, Q);
    CongIntro(-1, -1, Q, 0);
    MulModCong(-1, -1, t, Add(d, s2), c, c, Q);
    MulModAddLeft(-1, d, s2, c);
    SeqCongRefl(MulMod(-1, t0, c), Q);
    SubCong(MulMod(-1, t, c), Add(MulMod(-1, d, c), MulMod(-1, s2, c)), MulMod(-1, t0, c), MulMod(-1, t0, c), Q);
  }

  /** Plain algebra: (e + d) - ((d + s) - t) = (e - s) + t. */
  lemma Telescopes(e: Poly, d: Poly, s: Poly, t: Poly)
    requires |e| == |d| == |s| == |t|
    ensures Sub(Add(e, d), Sub(Add(d, s), t)) == Add(Sub(e, s), t)
  {
  }

  /** The row that verify recomputes is w - c s2 + c t0. */
  lemma RingIdentity(o: Oracle, params: Params, sk: SecretKey, t1: seq<int>, z: seq<int>, y: seq<int>, c: Poly, i: nat)
    requires IsOracle(o) && IsParams(params) && SkShape(params, sk) && i < params.ck && |t1| == params.ck * DEGREE
    requires KeyRow(o, params, sk, t1, i)
    requires |z| == |y| == params.el * DEGREE && Responds(z, y, sk.s1, c, params.el)
    ensures var u, n := URow(WRow(o, params, sk.rho, y, i), Row(sk.s2, i), c), NRow(Row(sk.t0, i), c);
      RRow(o, sk.rho, z, Row(t1, i), c, params.el, i) == VRow(u, n)
  {
    hide Cong, MulMod, SeqCong, Add, Sub, Scale, ModQ, P2rHigh, P2rLow, Dot, ZRow, IsOracle, RowExpands;
    var e, d := Dot(o, sk.rho, i, y, params.el), Dot(o, sk.rho, i, sk.s1, params.el);
    var s2, t0 := Row(sk.s2, i), Row(sk.t0, i);
    var dc, sc, tc := MulMod(-1, d, c), MulMod(-1, s2, c), MulMod(-1, t0, c);
    DotOfResponse(o, sk.rho, i, z, y, sk.s1, c, params.el);
    PublicPart(d, s2, Row(t1, i), t0, c);
    SubCong(Dot(o, sk.rho, i, z, params.el), Add(e, dc), MulMod(-1, Scale(8192, Row(t1, i)), c), Sub(Add(dc, sc), tc), Q);
    Telescopes(e, dc, sc, tc);
    ModQCong(Sub(Dot(o, sk.rho, i, z, params.el), MulMod(-1, Scale(8192, Row(t1, i)), c)), Add(Sub(e, sc), tc));
    SecretPart(e, sc, tc);
  }

  lemma SecretPart(e: Poly, sc: Poly, tc: Poly)
    requires |e| == |sc| == |tc|
    ensures ModQ(Sub(ModQ(Sub(ModQ(e), sc)), Flipped(Q, ModQ(tc)))) == ModQ(Add(Sub(e, sc), tc))
  {
    hide Cong;
    forall m | 0 <= m < |e|
      ensures ((e[m] % Q - sc[m]) % Q - (Q - tc[m] % Q)) % Q == (e[m] - sc[m] + tc[m]) % Q
    {
      CongMod(e[m], Q);
      CongIntro(sc[m], sc[m], Q, 0);
      CongSub(e[m] % Q, e[m], sc[m], sc[m], Q);
      CongMod(e[m] % Q - sc[m], Q);
      var u := (e[m] % Q - sc[m]) % Q;
      CongTrans(u, e[m] % Q - sc[m], e[m] - sc[m], Q);
      CongMod(tc[m], Q);
      CongAdd(u, e[m] - sc[m], tc[m] % Q, tc[m], Q);
      CongIntro(u - (Q - tc[m] % Q), u + tc[m] % Q, Q, -1);
      CongTrans(u - (Q - tc[m] % Q), u + tc[m] % Q, e[m] - sc[m] + tc[m], Q);
      SameResidue(u - (Q - tc[m] % Q), e[m] - sc[m] + tc[m]);
    }
  }

  // ----- the high parts agree -----

  /** Adding n back to v = u - n gives u. */
  lemma HintSum(u: Poly, n: Poly, m: nat)
    requires |u| == |n| == DEGREE && m < DEGREE && 0 <= u[m] < Q && 0 <= n[m] <= Q
    ensures WrapSum(VRow(u, n)[m], n[m]) == u[m]
  {
  }

  lemma NRowRange(t0: Poly, c: Poly)
    requires |t0| == |c| == DEGREE
    ensures forall m :: 0 <= m < DEGREE ==> 0 <= NRow(t0, c)[m] <= Q
  {
    hide MulMod;
  }

  lemma ModQRange(p: Poly)
    ensures forall m :: 0 <= m < |p| ==> 0 <= ModQ(p)[m] < Q
  {
  }

  /** |c s2| <= tau eta. */
  lemma SecretProductSmall(params: Params, s2: Poly, c: Poly)
    requires IsParams(params) && Vector(s2, 1, 0 - params.eta, params.eta) && |c| == DEGREE && OneNorm(c) == params.tau
    ensures Bounded(MulMod(-1, s2, c), Beta(params))
  {
    hide MulMod, OneNorm;
    MulModCommutes(-1, s2, c);
    ProductBound(-1, c, s2, params.eta);
  }

  /** The high part of w - c s2 is that of w, when the low part leaves room for c s2. */
  lemma HighUnchanged(params: Params, w: Poly, s2: Poly, c: Poly, m: nat)
    requires IsParams(params) && |w| == DEGREE && Vector(s2, 1, 0 - params.eta, params.eta) && |c| == DEGREE
    requires OneNorm(c) == params.tau && m < DEGREE && 0 <= w[m] < Q
    requires NormBelow(LowRow(params.dv, URow(w, s2, c)), Gamma2(params.dv) - Beta(params))
    ensures DecomposeHi(params.dv, URow(w, s2, c)[m]) == DecomposeHi(params.dv, w[m])
  {
    hide MulMod, OneNorm, DecomposeHi, DecomposeLo;
    SecretProductSmall(params, s2, c);
    var u, e := URow(w, s2, c)[m], MulMod(-1, s2, c)[m];
    assert u == (w[m] - e) % Q;
    DecomposeSpec(params.dv, u);
    assert Magnitude(LowRow(params.dv, URow(w, s2, c))[m]) < Gamma2(params.dv) - Beta(params);
    RestoreSum(w[m], e, u);
    HighStable(params.dv, u, e, Beta(params), w[m]);
  }

  lemma RestoreSum(w: int, e: int, u: int)
    requires 0 <= w < Q && u == (w - e) % Q
    ensures w == (u + e) % Q
  {
    hide Cong;
    CongMod(w - e, Q);
    CongIntro(e, e, Q, 0);
    CongAdd(u, w - e, e, e, Q);
    CongSym(u + e, w, Q);
    CongCanonical(w, u + e, Q);
  }

  lemma SmallHintOfNorm(dv: nat, n: Poly)
    requires IsDivisor(dv) && NormBelow(n, Gamma2(dv)) && forall m :: 0 <= m < |n| ==> 0 <= n[m] <= Q
    ensures forall m :: 0 <= m < |n| ==> SmallHint(dv, n[m])
  {
    RoundingConstants();
    forall m | 0 <= m < |n| ensures SmallHint(dv, n[m]) {
      assert Magnitude(n[m]) < Gamma2(dv);
    }
  }

  /** verify reads back, from a signed row's hints, exactly the high parts that were hashed. */
  lemma RowRecovered(params: Params, w: Poly, s2: Poly, t0: Poly, c: Poly, h: seq<int>, b: seq<int>, i: nat)
    requires IsParams(params) && |w| == |t0| == |c| == DEGREE && i < params.ck && |h| >= params.omega + params.ck
    requires Vector(s2, 1, 0 - params.eta, params.eta) && OneNorm(c) == params.tau
    requires (forall m :: 0 <= m < DEGREE ==> 0 <= w[m] < Q) && h <= b
    requires SignRow(params, w, s2, t0, c, h, i)
    ensures HintStart(params, h, i) >= 0
    ensures Pointer(b, HintStart(params, h, i + 1), HintStart(params, h, i), DEGREE) == HintStart(params, h, i + 1)
    ensures HintedRow(params.dv, b, HintStart(params, h, i + 1), HintStart(params, h, i), VRow(URow(w, s2, c), NRow(t0, c)))
         == HighRow(params.dv, w)
  {
    hide MulMod, OneNorm, DecomposeHi, DecomposeLo, Positions, Pointer, ModQ, Sub, NormBelow, LowRow, HintedHigh, Flipped;
    var u, n := URow(w, s2, c), NRow(t0, c);
    var v := VRow(u, n);
    var s, e := HintStart(params, h, i), HintStart(params, h, i + 1);
    ModQRange(Sub(w, MulMod(-1, s2, c)));
    ModQRange(Sub(u, n));
    NRowRange(t0, c);
    SmallHintOfNorm(params.dv, n);
    assert b[s..e] == h[s..e];
    HintRoundTrip(params.dv, b, e, s, v, n);
    forall m | 0 <= m < DEGREE
      ensures HintedRow(params.dv, b, e, s, v)[m] == HighRow(params.dv, w)[m]
    {
      HintSum(u, n, m);
      HighUnchanged(params, w, s2, c, m);
    }
  }

  // ----- all rows -----

  ghost predicate Verifying(o: Oracle, params: Params, sk: SecretKey, y: seq<int>, h: seq<int>, k: Check)
    requires IsOracle(o) && IsParams(params)
  {
    && SkParts(params, sk) && SkShape(params, sk) && CheckParts(params, k) && |y| == params.el * DEGREE
    && k.rho == sk.rho && |h| == params.omega + params.ck && h <= k.h && OneNorm(k.c) == params.tau
    && Responds(k.z, y, sk.s1, k.c, params.el)
    && forall i: nat :: i < params.ck ==>
         && KeyRow(o, params, sk, k.t1, i)
         && SignRow(params, WRow(o, params, sk.rho, y, i), Row(sk.s2, i), Row(sk.t0, i), k.c, h, i)
  }

  lemma RowVerifies(o: Oracle, params: Params, sk: SecretKey, y: seq<int>, h: seq<int>, k: Check, i: nat)
    requires IsOracle(o) && IsParams(params) && Verifying(o, params, sk, y, h, k) && i < params.ck
    ensures RowExpands(o, k.rho, i, params.el)
    ensures 0 <= HintStart(params, h, i) && k.h[params.omega + i] == HintStart(params, h, i + 1) <= params.omega
    ensures Pointer(k.h, k.h[params.omega + i], HintStart(params, h, i), DEGREE) == HintStart(params, h, i + 1)
    ensures HintedRow(params.dv, k.h, k.h[params.omega + i], HintStart(params, h, i),
                      RRow(o, k.rho, k.z, Row(k.t1, i), k.c, params.el, i))
         == HighRow(params.dv, WRow(o, params, sk.rho, y, i))
  {
    hide MulMod, OneNorm, DecomposeHi, DecomposeLo, Positions, Pointer, ModQ, NormBelow, LowRow, HintedRow, Dot, Responds,
      URow, NRow, VRow, RRow, IsOracle, HighRow;
    var w, s2, t0 := WRow(o, params, sk.rho, y, i), Row(sk.s2, i), Row(sk.t0, i);
    assert SignRow(params, w, s2, t0, k.c, h, i);
    assert KeyRow(o, params, sk, k.t1, i);
    RowVector(sk.s2, params.ck, 0 - params.eta, params.eta, i);
    ModQRange(Dot(o, sk.rho, i, y, params.el));
    RingIdentity(o, params, sk, k.t1, k.z, y, k.c, i);
    RowRecovered(params, w, s2, t0, k.c, h, k.h, i);
  }

  lemma {:induction false} RowsVerify(o: Oracle, params: Params, sk: SecretKey, y: seq<int>, h: seq<int>, k: Check, i: nat)
    requires IsOracle(o) && IsParams(params) && Verifying(o, params, sk, y, h, k) && i <= params.ck
    requires 0 <= HintStart(params, h, i)
    requires HighVector(params, HighRows(o, params, sk.rho, y, params.ck))
    requires ChallengeSeed(o, params, k.mu, HighRows(o, params, sk.rho, y, params.ck)) == k.ct
    ensures VerifyRows(o, params, k, i, HintStart(params, h, i), HighRows(o, params, sk.rho, y, i)) == Some(true)
    decreases params.ck - i
  {
    hide Pointer, HintedRow, RRow, IsOracle, HighRow, Vector, Verifying, HintStart, ChallengeSeed, RowExpands, WRow;
    VerifyingShape(o, params, sk, y, h, k);
    if i < params.ck {
      RowVerifies(o, params, sk, y, h, k, i);
      RowsVerify(o, params, sk, y, h, k, i + 1);
    }
  }

  /** For the rows of a signature, every one of them is come to. */
  lemma {:induction false} RowsReached(checks: bool, o: Oracle, params: Params, sk: SecretKey, y: seq<int>, h: seq<int>, k: Check,
                                           i: nat)
    requires IsOracle(o) && IsParams(params) && Verifying(o, params, sk, y, h, k) && i <= params.ck
    requires 0 <= HintStart(params, h, i)
    ensures CheckParts(params, k)
    ensures VerifyFits(checks, o, params, k, i, HintStart(params, h, i)) <==>
      forall j: nat :: i <= j < params.ck ==> RowFits(checks, o, params, k, j)
    decreases params.ck - i
  {
    hide Pointer, HintedRow, RRow, IsOracle, HighRow, Vector, Verifying, HintStart, RowExpands, WRow, RowFits;
    VerifyingShape(o, params, sk, y, h, k);
    if i < params.ck {
      RowVerifies(o, params, sk, y, h, k, i);
      RowsReached(checks, o, params, sk, y, h, k, i + 1);
    }
  }

  lemma VerifyingShape(o: Oracle, params: Params, sk: SecretKey, y: seq<int>, h: seq<int>, k: Check)
    requires IsOracle(o) && IsParams(params) && Verifying(o, params, sk, y, h, k)
    ensures CheckParts(params, k) && |y| == params.el * DEGREE && |h| == params.omega + params.ck
  {
    hide IsOracle;
  }

  lemma RespondsIntro(o: Oracle, params: Params, sk: SecretKey, m: seq<int>, y: seq<int>, c: Poly, z: seq<int>,
                      ct: seq<int>, h: seq<int>)
    requires IsOracle(o) && IsParams(params) && SkShape(params, sk) && Signed(o, params, sk, m, y, c, z, ct, h)
    ensures Responds(z, y, sk.s1, c, params.el)
  {
    hide IsOracle, SignRow, ChallengeSeed, HighRows, ZRow, NormBelow, WRow;
  }

  /**
   Correctness: for any extendable-output functions, parameter set, key pair, message and signature emitted
   for them, verify accepts; and its arithmetic stays in range if and only if each of the rows has the headroom, with or without
   overflow checks.
   */
  lemma SignaturesVerify(o: Oracle, params: Params, sk: SecretKey, pk: seq<int>, m: seq<int>, sig: seq<int>)
    requires IsOracle(o) && IsParams(params) && IsKeyPair(o, params, sk, pk) && IsSignature(o, params, sk, m, sig)
    ensures Bytes(pk, PkSize(params)) && Bytes(sig, SigSize(params)) && Verified(o, params, pk, m, sig) == Some(true)
    ensures ChallengeOf(o, params, SigCt(sig)).Some? && |ChallengeOf(o, params, SigCt(sig)).value| == DEGREE
    ensures var k := Unpacked(o, params, pk, m, sig, ChallengeOf(o, params, SigCt(sig)).value);
      forall checks :: RowsFit(checks, o, params, pk, m, sig) <==> forall i: nat :: i < params.ck ==> RowFits(checks, o, params, k, i)
  {
    hide IsOracle, SignRow, ChallengeSeed, HighRows, ZRow, NormBelow, WRow, KeyRow, OneNorm, Recoded, SigZ, SigH, SigCt, PkT1,
      VerifyRows, VerifyFits, RowFits, Challenge, HintBuffer, SigBytes;
    var y :| SignedWith(o, params, sk, m, y, sig);
    var c, z, ct, h :| Signed(o, params, sk, m, y, c, z, ct, h)
      && SigParts(params, z, ct, h) && sig == SigBytes(params, z, ct, h);
    SigRoundTrip(params, z, ct, h);
    ChallengeShape(o, params, ct);
    var k := Check(PkRho(pk), PkT1(params, pk), z, c, HintBuffer(params, h), Mu(o, sk.tr, m), ct);
    RespondsIntro(o, params, sk, m, y, c, z, ct, h);
    BufferStarts(params, h);
    assert Verifying(o, params, sk, y, h, k);
    NoRows(o, params, sk, y);
    RowsVerify(o, params, sk, y, h, k, 0);
    RowsReached(true, o, params, sk, y, h, k, 0);
    RowsReached(false, o, params, sk, y, h, k, 0);
  }

  lemma BufferStarts(params: Params, h: seq<int>)
    requires IsParams(params) && Bytes(h, params.omega + params.ck)
    ensures h <= HintBuffer(params, h)
  {
  }

  lemma NoRows(o: Oracle, params: Params, sk: SecretKey, y: seq<int>)
    requires IsOracle(o) && IsParams(params) && |y| == params.el * DEGREE
    ensures HighRows(o, params, sk.rho, y, 0) == []
  {
    hide IsOracle;
  }

  /**
   The three operations on bytes: a key pair, a signature under it, and its verification, which never rejects, and accepts exactly
   if every row has the headroom for intt, in a build with or without overflow checks.
   */
  method SignAndVerify(checks: bool, o: Oracle, params: Params, tau: seq<int>, m: seq<int>, rounds: nat)
    returns (keys: Option<(seq<int>, seq<int>)>, signed: Option<(seq<int>, nat)>, verdict: Option<bool>)
    requires IsOracle(o) && IsParams(params) && Bytes(tau, 32)
    ensures verdict.Some? ==> verdict.value
    ensures signed.Some? ==> keys.Some? && Bytes(keys.value.1, PkSize(params)) && Bytes(signed.value.0, SigSize(params))
    ensures signed.Some? ==> (verdict == Some(true) <==> RowsFit(checks, o, params, keys.value.1, m, signed.value.0))
  {
    keys, signed, verdict := None, None, None;
    hide IsKeyPair, IsSignature, Verified, SkOf, SecretRows, RowsFit;
    keys := KeyPair(o, params, tau);
    if keys.None? {
      return;
    }
    var (sk, pk) := keys.value;
    signed := Signature(o, params, sk, m, rounds);
    if signed.None? {
      return;
    }
    KeyBytes(o, params, SkOf(params, sk), pk);
    SignaturesVerify(o, params, SkOf(params, sk), pk, m, signed.value.0);
    verdict := Verify(checks, o, params, pk, m, signed.value.0);
  }

  lemma KeyBytes(o: Oracle, params: Params, sk: SecretKey, pk: seq<int>)
    requires IsOracle(o) && IsParams(params) && IsKeyPair(o, params, sk, pk)
    ensures Bytes(pk, PkSize(params))
  {
    hide KeyRow, IsOracle;
  }
}
