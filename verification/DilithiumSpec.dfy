/**
 Keys, signatures and verification of dilithium.rs over the ring Z_Q[x]/(x^256 + 1), for arbitrary
 extendable-output functions: what keypair, signature and verify compute.
 */
module DilithiumSpec {
  import opened Wrappers
  import opened BitStream
  import opened QuotientRing
  import opened TransformTree
  import opened PolyVector
  import opened DilithiumTables
  import opened DilithiumMontgomery
  import opened DilithiumNtt
  import opened DilithiumPoly
  import opened DilithiumRounding
  import opened DilithiumHints
  import opened DilithiumPacking
  import opened DilithiumSampling
  import opened RejectionSampling

  function Beta(params: Params): (b: nat) { params.tau * params.eta }

  // ----- the matrix -----

  /** expandaij absorbs rho, then j, then i. */
  function MatrixElement(o: Oracle, rho: seq<int>, i: nat, j: nat): (a: Option<seq<int>>)
    requires IsOracle(o)
    ensures a.Some? ==> |a.value| == DEGREE
  {
    UniformPoly(o.shake128(rho + [j % 256, i % 256], 4 * DEGREE))
  }

  /** The transform of element (i, j): the 23-bit words below q of the output for rho, j, i. */
  lemma MatrixExact(o: Oracle, rho: seq<int>, i: nat, j: nat)
    requires IsOracle(o)
    ensures var b := o.shake128(rho + [j % 256, i % 256], 1024);
      var a := MatrixElement(o, rho, i, j);
      && Bytes(b, 1024)
      && (a.None? <==> CountBelow(Fields(b), Q, 341) < DEGREE)
      && (a.Some? ==> forall n: nat :: n < DEGREE ==> IsNth(Fields(b), Q, n, a.value[n]))
  {
    hide Fields, CountBelow, IsNth, FirstBelow;
    var b := o.shake128(rho + [j % 256, i % 256], 1024);
    CandidatesAreFields(b);
    FirstBelowExact(Candidates(b), Q);
  }

  ghost predicate RowExpands(o: Oracle, rho: seq<int>, i: nat, el: nat)
    requires IsOracle(o)
  {
    forall j: nat :: j < el ==> MatrixElement(o, rho, i, j).Some?
  }

  /** Element (i, j) of A: the polynomial whose transform is sampled. */
  function MatrixPoly(o: Oracle, rho: seq<int>, i: nat, j: nat): (a: Poly)
    requires IsOracle(o)
    ensures |a| == DEGREE
  {
    match MatrixElement(o, rho, i, j)
    case Some(x) => InverseTransform(x)
    case None => Zero(DEGREE)
  }

  /** Row i of A times the first n polynomials of v. */
  function Dot(o: Oracle, rho: seq<int>, i: nat, v: seq<int>, n: nat): (p: Poly)
    requires IsOracle(o) && n * DEGREE <= |v|
    ensures |p| == DEGREE
  {
    if n == 0 then Zero(DEGREE)
    else Add(Dot(o, rho, i, v, n - 1), MulMod(-1, Row(v, n - 1), MatrixPoly(o, rho, i, n - 1)))
  }

  // ----- keys -----

  /** Row i of t = A s1 + s2. */
  function TRow(o: Oracle, params: Params, sk: SecretKey, i: nat): (t: Poly)
    requires IsOracle(o) && SkShape(params, sk) && i < params.ck
    ensures |t| == DEGREE
  {
    ModQ(Add(Dot(o, sk.rho, i, sk.s1, params.el), Row(sk.s2, i)))
  }

  ghost predicate KeyRow(o: Oracle, params: Params, sk: SecretKey, t1: seq<int>, i: nat)
    requires IsOracle(o) && SkShape(params, sk) && i < params.ck && |t1| == params.ck * DEGREE
  {
    && RowExpands(o, sk.rho, i, params.el)
    && (forall m :: 0 <= m < DEGREE ==> Row(t1, i)[m] == P2rHigh(TRow(o, params, sk, i)[m]))
    && (forall m :: 0 <= m < DEGREE ==> Row(sk.t0, i)[m] == P2rLow(TRow(o, params, sk, i)[m]))
  }

  /** sk and pk belong together: t = A s1 + s2, rounded into t1 (public) and t0 (secret). */
  ghost predicate IsKeyPair(o: Oracle, params: Params, sk: SecretKey, pk: seq<int>)
    requires IsOracle(o) && IsParams(params)
  {
    && SkParts(params, sk) && SkShape(params, sk) && Bytes(pk, PkSize(params)) && PkRho(pk) == sk.rho
    && sk.tr == o.shake256(pk, 32)
    && forall i: nat :: i < params.ck ==> KeyRow(o, params, sk, PkT1(params, pk), i)
  }

  // ----- signatures -----

  function Mu(o: Oracle, tr: seq<int>, m: seq<int>): (mu: seq<int>) { o.shake256(tr + m, 64) }

  function HighRow(dv: nat, p: Poly): (r: seq<int>)
    requires IsDivisor(dv)
    ensures |r| == |p|
  {
    seq(|p|, m requires 0 <= m < |p| => DecomposeHi(dv, p[m]))
  }

  /** Row i of w = A y. */
  function WRow(o: Oracle, params: Params, rho: seq<int>, y: seq<int>, i: nat): (w: Poly)
    requires IsOracle(o) && |y| == params.el * DEGREE
    ensures |w| == DEGREE
  {
    ModQ(Dot(o, rho, i, y, params.el))
  }

  /** The high parts of the first n rows of w. */
  function HighRows(o: Oracle, params: Params, rho: seq<int>, y: seq<int>, n: nat): (w1: seq<int>)
    requires IsOracle(o) && IsParams(params) && |y| == params.el * DEGREE
    ensures |w1| == n * DEGREE
  {
    if n == 0 then []
    else HighRows(o, params, rho, y, n - 1) + HighRow(params.dv, WRow(o, params, rho, y, n - 1))
  }

  /** Bits of a packed high part. */
  function HighBits(params: Params): (b: nat) { if params.dv == 88 then 6 else 4 }

  predicate HighVector(params: Params, w1: seq<int>) { Vector(w1, params.ck, 0, params.dv as int / 2 - 1) }

  /** h4: the challenge seed. */
  function ChallengeSeed(o: Oracle, params: Params, mu: seq<int>, w1: seq<int>): (ct: seq<int>)
    requires IsParams(params) && HighVector(params, w1)
  {
    Powers();
    o.shake256(mu + Recoded(HighBits(params), 8, params.ck * (32 * HighBits(params)), w1), 32)
  }

  function ChallengeOf(o: Oracle, params: Params, ct: seq<int>): (c: Option<seq<int>>)
    requires IsOracle(o) && IsParams(params)
  {
    Challenge(params.tau, o.shake256(ct, 136))
  }

  /** y + c s1. */
  function ZRow(y: Poly, s1: Poly, c: Poly): (z: Poly)
    requires |y| == |s1| == |c| == DEGREE
    ensures |z| == DEGREE
  {
    ModQ(Add(y, MulMod(-1, s1, c)))
  }

  /** w - c s2. */
  function URow(w: Poly, s2: Poly, c: Poly): (u: Poly)
    requires |w| == |s2| == |c| == DEGREE
    ensures |u| == DEGREE
  {
    ModQ(Sub(w, MulMod(-1, s2, c)))
  }

  /** -c t0, as poly_negate leaves it: in (0, Q]. */
  function NRow(t0: Poly, c: Poly): (n: Poly)
    requires |t0| == |c| == DEGREE
    ensures |n| == DEGREE
  {
    Flipped(Q, ModQ(MulMod(-1, t0, c)))
  }

  /** w - c s2 + c t0. */
  function VRow(u: Poly, n: Poly): (v: Poly)
    requires |u| == |n| == DEGREE
    ensures |v| == DEGREE
  {
    ModQ(Sub(u, n))
  }

  predicate NormBelow(p: Poly, g: int) { forall m :: 0 <= m < |p| ==> Magnitude(p[m]) < g }

  function LowRow(dv: nat, p: Poly): (r: seq<int>)
    requires IsDivisor(dv)
    ensures |r| == |p|
  {
    seq(|p|, m requires 0 <= m < |p| => DecomposeLo(dv, p[m]))
  }

  /** Where the hints of row i start in the buffer: at the end recorded for row i - 1. */
  function HintStart(params: Params, h: seq<int>, i: nat): (s: int)
    requires i <= params.ck && |h| >= params.omega + params.ck
  {
    if i == 0 then 0 else h[params.omega + i - 1]
  }

  /** Row i passed the two norm checks of signature and its hints are in the buffer. */
  ghost predicate SignRow(params: Params, w: Poly, s2: Poly, t0: Poly, c: Poly, h: seq<int>, i: nat)
    requires IsParams(params) && |w| == |s2| == |t0| == |c| == DEGREE && i < params.ck && |h| >= params.omega + params.ck
  {
    var u, n := URow(w, s2, c), NRow(t0, c);
    && NormBelow(LowRow(params.dv, u), Gamma2(params.dv) - Beta(params))
    && NormBelow(n, Gamma2(params.dv))
    && 0 <= HintStart(params, h, i) <= HintStart(params, h, i + 1) <= params.omega
    && h[HintStart(params, h, i)..HintStart(params, h, i + 1)] == Positions(params.dv, VRow(u, n), n, DEGREE)
  }

  /** What the accepted round of signature with mask y computes. */
  ghost predicate Signed(o: Oracle, params: Params, sk: SecretKey, m: seq<int>, y: seq<int>, c: Poly, z: seq<int>,
                         ct: seq<int>, h: seq<int>)
    requires IsOracle(o) && IsParams(params) && SkShape(params, sk)
  {
    && |c| == DEGREE && Vector(y, params.el, 0, Q - 1) && |z| == params.el * DEGREE && Bytes(h, params.omega + params.ck)
    && HighVector(params, HighRows(o, params, sk.rho, y, params.ck))
    && ct == ChallengeSeed(o, params, Mu(o, sk.tr, m), HighRows(o, params, sk.rho, y, params.ck))
    && ChallengeOf(o, params, ct) == Some(c)
    && (forall j: nat :: j < params.el ==> Row(z, j) == ZRow(Row(y, j), Row(sk.s1, j), c))
    && NormBelow(z, Gamma1(params) - Beta(params))
    && forall i: nat :: i < params.ck ==>
         SignRow(params, WRow(o, params, sk.rho, y, i), Row(sk.s2, i), Row(sk.t0, i), c, h, i)
  }

  /** sig is what the round with mask y packs. */
  ghost predicate SignedWith(o: Oracle, params: Params, sk: SecretKey, m: seq<int>, y: seq<int>, sig: seq<int>)
    requires IsOracle(o) && IsParams(params) && SkShape(params, sk)
  {
    exists c, z, ct, h :: Signed(o, params, sk, m, y, c, z, ct, h)
      && SigParts(params, z, ct, h) && sig == SigBytes(params, z, ct, h)
  }

  /** The round with mask y fails a norm check, or its hints do not fit. */
  ghost predicate CannotSign(o: Oracle, params: Params, sk: SecretKey, m: seq<int>, y: seq<int>)
    requires IsOracle(o) && IsParams(params) && SkShape(params, sk)
  {
    forall c, z, ct, h :: !Signed(o, params, sk, m, y, c, z, ct, h)
  }

  ghost predicate IsSignature(o: Oracle, params: Params, sk: SecretKey, m: seq<int>, sig: seq<int>)
    requires IsOracle(o) && IsParams(params) && SkShape(params, sk)
  {
    exists y :: SignedWith(o, params, sk, m, y, sig)
  }

  /** sample_y's input for row n, counted over all rounds. */
  function MaskInput(rhod: seq<int>, n: nat): (s: seq<int>) { rhod + [n % 256, (n / 256) % 256] }

  /** The first n polynomials of the mask whose first row index is k. */
  function Masks(o: Oracle, params: Params, rhod: seq<int>, k: nat, n: nat): (y: seq<int>)
    requires IsOracle(o) && IsParams(params)
    ensures Vector(y, n, 0, Q - 1)
  {
    hide MaskPoly;
    if n == 0 then []
    else Masks(o, params, rhod, k, n - 1) + MaskPoly(params, o.shake256(MaskInput(rhod, k + n - 1), 32 * (params.lg + 1)))
  }

  /** The mask seed: crh3 of the secret and the message representative. */
  function MaskSeed(o: Oracle, sk: SecretKey, m: seq<int>): (rhod: seq<int>) { o.shake256(sk.bk + Mu(o, sk.tr, m), 64) }

  /** The mask of round k, counted from 0. */
  function RoundMask(o: Oracle, params: Params, sk: SecretKey, m: seq<int>, k: nat): (y: seq<int>)
    requires IsOracle(o) && IsParams(params)
  {
    Masks(o, params, MaskSeed(o, sk, m), k * params.el, params.el)
  }

  /** Coefficient n of row j of the mask of round k, from the secret, the message and the row's number over all rounds. */
  lemma RoundMaskExact(o: Oracle, params: Params, sk: SecretKey, m: seq<int>, k: nat, j: nat, n: nat)
    requires IsOracle(o) && IsParams(params) && j < params.el && n < DEGREE
    ensures |RoundMask(o, params, sk, m, k)| == params.el * DEGREE
    ensures var seed, r, w := o.shake256(sk.bk + o.shake256(sk.tr + m, 64), 64), k * params.el + j, params.lg + 1;
      var b := o.shake256(seed + [r % 256, (r / 256) % 256], 32 * w);
      && Bytes(b, 32 * w)
      && Row(RoundMask(o, params, sk, m, k), j)[n]
         == ((if params.lg == 17 then 0x2_0000 else 0x8_0000) - BitField(b, w * n, w)) % Q
  {
    hide IsOracle, MaskPoly, BitField;
    MaskRow(o, params, MaskSeed(o, sk, m), k * params.el, params.el, j);
    var b := o.shake256(MaskInput(MaskSeed(o, sk, m), k * params.el + j), 32 * (params.lg + 1));
    OutputBytes(o, MaskInput(MaskSeed(o, sk, m), k * params.el + j), 32 * (params.lg + 1));
    MaskExact(params, b);
  }

  lemma OutputBytes(o: Oracle, input: seq<int>, n: nat)
    requires IsOracle(o)
    ensures Bytes(o.shake256(input, n), n)
  {
  }

  lemma {:induction false} MaskRow(o: Oracle, params: Params, rhod: seq<int>, k: nat, n: nat, j: nat)
    requires IsOracle(o) && IsParams(params) && j < n
    ensures Row(Masks(o, params, rhod, k, n), j) == MaskPoly(params, o.shake256(MaskInput(rhod, k + j), 32 * (params.lg + 1)))
  {
    hide IsOracle, MaskPoly;
    OutputBytes(o, MaskInput(rhod, k + n - 1), 32 * (params.lg + 1));
    RowsAppend(Masks(o, params, rhod, k, n - 1),
               MaskPoly(params, o.shake256(MaskInput(rhod, k + n - 1), 32 * (params.lg + 1))), n - 1);
    if j < n - 1 {
      MaskRow(o, params, rhod, k, n - 1, j);
    }
  }

  // ----- verification -----

  /** A z - c t1 2^D. */
  function RRow(o: Oracle, rho: seq<int>, z: seq<int>, t1: Poly, c: Poly, el: nat, i: nat): (r: Poly)
    requires IsOracle(o) && |z| == el * DEGREE && |t1| == |c| == DEGREE
    ensures |r| == DEGREE
  {
    ModQ(Sub(Dot(o, rho, i, z, el), MulMod(-1, Scale(8192, t1), c)))
  }

  /**
   The values that verify gives to intt for row i, exactly: the reduced transform of A z over R, plus Q, minus the unreduced
   product of the transforms of t1 2^D and c.
   */
  ghost function RowInput(o: Oracle, rho: seq<int>, z: seq<int>, t1: Poly, c: Poly, el: nat, i: nat): (y: seq<int>)
    requires IsOracle(o) && |z| == el * DEGREE && |t1| == |c| == DEGREE
    ensures |y| == DEGREE
  {
    hide Dot, NttValues, RedcValue, Leaf, IsOracle;
    var d, w, ch := Scale(RINV, Dot(o, rho, i, z, el)), NttValues(Scale(8192, t1)), NttValues(c);
    seq(DEGREE, j requires 0 <= j < DEGREE => Leaf(d, j) % Q + (Q - RedcValue(w[j] * ch[j])))
  }

  /** verify's hint buffer: the signature's bytes followed by zeros. */
  function HintBuffer(params: Params, h: seq<int>): (b: seq<int>)
    requires IsParams(params) && Bytes(h, params.omega + params.ck)
    ensures Bytes(b, HINT_BYTES) && IsBuffer(params, b)
  {
    h + Zero(HINT_BYTES - |h|)
  }

  datatype Check = Check(rho: seq<int>, t1: seq<int>, z: seq<int>, c: Poly, h: seq<int>, mu: seq<int>, ct: seq<int>)

  predicate CheckParts(params: Params, k: Check)
    requires IsParams(params)
  {
    && |k.t1| == params.ck * DEGREE && |k.z| == params.el * DEGREE && |k.c| == DEGREE
    && Bytes(k.h, HINT_BYTES) && IsBuffer(params, k.h)
  }

  /** Rows i.. of verify, reading hints from ptr on, w1 being the high parts so far. None where the source panics. */
  ghost function VerifyRows(o: Oracle, params: Params, k: Check, i: nat, ptr: nat, w1: seq<int>): (r: Option<bool>)
    requires IsOracle(o) && IsParams(params) && CheckParts(params, k) && i <= params.ck
    decreases params.ck - i
  {
    if i == params.ck then
      Some(HighVector(params, w1) && ChallengeSeed(o, params, k.mu, w1) == k.ct)
    else if !RowExpands(o, k.rho, i, params.el) then None
    else
      var end := k.h[params.omega + i];
      var r := RRow(o, k.rho, k.z, Row(k.t1, i), k.c, params.el, i);
      var next := Pointer(k.h, end, ptr, DEGREE);
      if next > params.omega then Some(false)
      else VerifyRows(o, params, k, i + 1, next, w1 + HintedRow(params.dv, k.h, end, ptr, r))
  }

  /** Row i has the headroom for intt in a build with or without overflow checks. */
  ghost predicate RowFits(checks: bool, o: Oracle, params: Params, k: Check, i: nat)
    requires IsOracle(o) && IsParams(params) && CheckParts(params, k) && i < params.ck
  {
    EnoughFor(checks, RowInput(o, k.rho, k.z, Row(k.t1, i), k.c, params.el, i))
  }

  /** Every row from i on that verify comes to has the headroom. */
  ghost predicate VerifyFits(checks: bool, o: Oracle, params: Params, k: Check, i: nat, ptr: nat)
    requires IsOracle(o) && IsParams(params) && CheckParts(params, k) && i <= params.ck
    decreases params.ck - i
  {
    i < params.ck && RowExpands(o, k.rho, i, params.el) ==>
      && RowFits(checks, o, params, k, i)
      && var next := Pointer(k.h, k.h[params.omega + i], ptr, DEGREE);
         (next <= params.omega ==> VerifyFits(checks, o, params, k, i + 1, next))
  }

  /** What verify unpacks and hashes, c being the challenge. */
  function Unpacked(o: Oracle, params: Params, pk: seq<int>, m: seq<int>, sig: seq<int>, c: Poly): (k: Check)
    requires IsOracle(o) && IsParams(params) && Bytes(pk, PkSize(params)) && Bytes(sig, SigSize(params)) && |c| == DEGREE
    ensures CheckParts(params, k)
  {
    Check(PkRho(pk), PkT1(params, pk), SigZ(params, sig), c, HintBuffer(params, SigH(params, sig)),
          Mu(o, o.shake256(pk, 32), m), SigCt(sig))
  }

  /** Every row that verify comes to has the headroom for intt in the given kind of build. */
  ghost predicate RowsFit(checks: bool, o: Oracle, params: Params, pk: seq<int>, m: seq<int>, sig: seq<int>)
    requires IsOracle(o) && IsParams(params) && Bytes(pk, PkSize(params)) && Bytes(sig, SigSize(params))
  {
    NormBelow(SigZ(params, sig), Gamma1(params) - Beta(params)) ==>
      match ChallengeOf(o, params, SigCt(sig))
      case None => true
      case Some(c) =>
        ChallengeShape(o, params, SigCt(sig));
        VerifyFits(checks, o, params, Unpacked(o, params, pk, m, sig, c), 0, 0)
  }

  /** The verdict of verify in the ring. */
  ghost function Verified(o: Oracle, params: Params, pk: seq<int>, m: seq<int>, sig: seq<int>): (r: Option<bool>)
    requires IsOracle(o) && IsParams(params) && Bytes(pk, PkSize(params)) && Bytes(sig, SigSize(params))
  {
    var z, ct := SigZ(params, sig), SigCt(sig);
    if !NormBelow(z, Gamma1(params) - Beta(params)) then Some(false)
    else
      match ChallengeOf(o, params, ct)
      case None => None
      case Some(c) =>
        ChallengeShape(o, params, ct);
        VerifyRows(o, params, Unpacked(o, params, pk, m, sig, c), 0, 0, [])
  }

  lemma ChallengeShape(o: Oracle, params: Params, ct: seq<int>)
    requires IsOracle(o) && IsParams(params) && ChallengeOf(o, params, ct).Some?
    ensures var c := ChallengeOf(o, params, ct).value; |c| == DEGREE && Ternary(c) && OneNorm(c) == params.tau
  {
    hide Challenge, OneNorm;
    ChallengeWeight(params.tau, o.shake256(ct, 136));
  }
}
