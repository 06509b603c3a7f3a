/** The verdict of verify said outright: which signatures are accepted, rejected, and left without a verdict. */
module DilithiumVerdict {
  import opened Wrappers
  import opened BitStream
  import opened QuotientRing
  import opened TransformTree
  import opened PolyVector
  import opened DilithiumTables
  import opened DilithiumMontgomery
  import opened DilithiumPoly
  import opened DilithiumRounding
  import opened DilithiumHints
  import opened DilithiumPacking
  import opened DilithiumSampling
  import opened DilithiumSpec

  lemma RRowRange(o: Oracle, rho: seq<int>, z: seq<int>, t1: Poly, c: Poly, el: nat, i: nat)
    requires IsOracle(o) && |z| == el * DEGREE && |t1| == |c| == DEGREE
    ensures forall j :: 0 <= j < DEGREE ==> 0 <= RRow(o, rho, z, t1, c, el, i)[j] < Q
  {
    hide IsOracle, Dot, MulMod;
  }

  lemma HintedRange(params: Params, h: seq<int>, end: int, ptr: nat, w: seq<int>)
    requires IsParams(params) && |w| == DEGREE && forall j :: 0 <= j < DEGREE ==> 0 <= w[j] < Q
    ensures Vector(HintedRow(params.dv, h, end, ptr, w), 1, 0, params.dv as int / 2 - 1)
  {
    hide DecomposeHi, DecomposeLo, Pointer;
    forall m | 0 <= m < DEGREE
      ensures 0 <= HintedRow(params.dv, h, end, ptr, w)[m] <= params.dv as int / 2 - 1
    {
      DecomposeSpec(params.dv, w[m]);
    }
  }

  /**
   p are the places in the hint buffer where each row's hints start, each row starting where the one before stopped, and w1 the high
   parts of the rows A z - c t1 2^D corrected by their hints.
   */
  ghost predicate Walked(o: Oracle, params: Params, k: Check, p: seq<nat>, w1: seq<int>)
    requires IsOracle(o) && IsParams(params) && CheckParts(params, k)
    ensures Walked(o, params, k, p, w1) ==> |p| == params.ck + 1 && HighVector(params, w1)
  {
    && |p| == params.ck + 1 && p[0] == 0 && HighVector(params, w1)
    && forall i: nat :: i < params.ck ==>
         && p[i + 1] == Pointer(k.h, k.h[params.omega + i], p[i], DEGREE)
         && Row(w1, i) == HintedRow(params.dv, k.h, k.h[params.omega + i], p[i],
                                    RRow(o, k.rho, k.z, Row(k.t1, i), k.c, params.el, i))
  }

  /** There always are such p and w1. */
  lemma WalkExists(o: Oracle, params: Params, k: Check) returns (p: seq<nat>, w1: seq<int>)
    requires IsOracle(o) && IsParams(params) && CheckParts(params, k)
    ensures Walked(o, params, k, p, w1)
  {
    hide IsOracle, RRow, HintedRow, Pointer;
    p, w1 := [0], [];
    for i := 0 to params.ck
      invariant |p| == i + 1 && p[0] == 0 && Vector(w1, i, 0, params.dv as int / 2 - 1)
      invariant forall j: nat :: j < i ==>
        && p[j + 1] == Pointer(k.h, k.h[params.omega + j], p[j], DEGREE)
        && Row(w1, j) == HintedRow(params.dv, k.h, k.h[params.omega + j], p[j],
                                   RRow(o, k.rho, k.z, Row(k.t1, j), k.c, params.el, j))
    {
      var r := RRow(o, k.rho, k.z, Row(k.t1, i), k.c, params.el, i);
      var row := HintedRow(params.dv, k.h, k.h[params.omega + i], p[i], r);
      RRowRange(o, k.rho, k.z, Row(k.t1, i), k.c, params.el, i);
      HintedRange(params, k.h, k.h[params.omega + i], p[i], r);
      VectorAppend(w1, row, i, 0, params.dv as int / 2 - 1);
      RowsAppend(w1, row, i);
      p, w1 := p + [Pointer(k.h, k.h[params.omega + i], p[i], DEGREE)], w1 + row;
    }
  }

  /** The rows from i on, said without the recursion. */
  lemma {:induction false} RowsExact(o: Oracle, params: Params, k: Check, p: seq<nat>, w1: seq<int>, i: nat)
    requires IsOracle(o) && IsParams(params) && CheckParts(params, k) && i <= params.ck
    requires Walked(o, params, k, p, w1)
    ensures VerifyRows(o, params, k, i, p[i], w1[..i * DEGREE]).None? <==>
      exists n: nat :: i <= n < params.ck && !RowExpands(o, k.rho, n, params.el) && forall t :: i < t <= n ==> p[t] <= params.omega
    ensures VerifyRows(o, params, k, i, p[i], w1[..i * DEGREE]) == Some(true) <==>
      && (forall n: nat :: i <= n < params.ck ==> RowExpands(o, k.rho, n, params.el))
      && (forall t :: i < t <= params.ck ==> p[t] <= params.omega)
      && ChallengeSeed(o, params, k.mu, w1) == k.ct
    decreases params.ck - i
  {
    hide IsOracle, RRow, HintedRow, Pointer, RowExpands, ChallengeSeed;
    if i == params.ck {
      assert w1[..i * DEGREE] == w1;
    } else {
      assert w1[..i * DEGREE] + Row(w1, i) == w1[..(i + 1) * DEGREE];
      RowsExact(o, params, k, p, w1, i + 1);
    }
  }

  /** The seed hashed from a message representative and packed high parts. */
  function SeedOf(o: Oracle, params: Params, mu: seq<int>, w1: seq<int>): (ct: seq<int>)
    requires IsParams(params) && HighVector(params, w1)
  {
    Powers();
    if params.dv == 88 then o.shake256(mu + Recoded(6, 8, params.ck * 192, w1), 32)
    else o.shake256(mu + Recoded(4, 8, params.ck * 128, w1), 32)
  }

  /** The row loop from its start: accepted exactly if every row expands, no pointer leaves the hints, and the seed comes out again. */
  lemma RowsVerdict(o: Oracle, params: Params, k: Check)
    requires IsOracle(o) && IsParams(params) && CheckParts(params, k)
    ensures VerifyRows(o, params, k, 0, 0, []) == Some(true) <==>
      && (forall n: nat :: n < params.ck ==> RowExpands(o, k.rho, n, params.el))
      && exists p, w1 :: Walked(o, params, k, p, w1) && (forall t :: 0 <= t <= params.ck ==> p[t] <= params.omega)
           && SeedOf(o, params, k.mu, w1) == k.ct
  {
    hide IsOracle, Walked, VerifyRows, RowExpands, ChallengeSeed, SeedOf, HighVector;
    var p0, w0 := WalkExists(o, params, k);
    forall p, w1 | Walked(o, params, k, p, w1)
      ensures VerifyRows(o, params, k, 0, 0, []) == Some(true) <==>
        && (forall n: nat :: n < params.ck ==> RowExpands(o, k.rho, n, params.el))
        && (forall t :: 0 <= t <= params.ck ==> p[t] <= params.omega)
        && SeedOf(o, params, k.mu, w1) == k.ct
    {
      RowsExact(o, params, k, p, w1, 0);
      WalkStart(o, params, k, p, w1);
      SeedOfIs(o, params, k.mu, w1);
      assert w1[..0 * DEGREE] == [];
    }
  }

  /** What verify recomputes from a public key and the bytes of a signature, c being the challenge. */
  ghost predicate Recomputed(o: Oracle, params: Params, pk: seq<int>, sig: seq<int>, c: Poly, p: seq<nat>, w1: seq<int>)
    requires IsOracle(o) && IsParams(params) && Bytes(pk, PkSize(params)) && Bytes(sig, SigSize(params)) && |c| == DEGREE
    ensures Recomputed(o, params, pk, sig, c, p, w1) ==> |p| == params.ck + 1 && HighVector(params, w1)
  {
    var h := HintBuffer(params, SigH(params, sig));
    Walked(o, params, Check(PkRho(pk), PkT1(params, pk), SigZ(params, sig), c, h, [], []), p, w1)
  }

  lemma RecomputedIsWalked(o: Oracle, params: Params, pk: seq<int>, m: seq<int>, sig: seq<int>, c: Poly, p: seq<nat>, w1: seq<int>)
    requires IsOracle(o) && IsParams(params) && Bytes(pk, PkSize(params)) && Bytes(sig, SigSize(params)) && |c| == DEGREE
    ensures Recomputed(o, params, pk, sig, c, p, w1) <==> Walked(o, params, Unpacked(o, params, pk, m, sig, c), p, w1)
  {
    hide IsOracle, RRow, HintedRow, Pointer, HintBuffer, PkT1, SigZ, SigH;
  }

  lemma SeedOfIs(o: Oracle, params: Params, mu: seq<int>, w1: seq<int>)
    requires IsParams(params) && HighVector(params, w1)
    ensures ChallengeSeed(o, params, mu, w1) == SeedOf(o, params, mu, w1)
  {
    hide Recoded;
    Powers();
  }

  /** From an acceptable z and a challenge on. */
  lemma VerdictWith(o: Oracle, params: Params, pk: seq<int>, m: seq<int>, sig: seq<int>, c: Poly, p: seq<nat>, w1: seq<int>)
    requires IsOracle(o) && IsParams(params) && Bytes(pk, PkSize(params)) && Bytes(sig, SigSize(params)) && |c| == DEGREE
    requires NormBelow(SigZ(params, sig), Gamma1(params) - Beta(params)) && ChallengeOf(o, params, SigCt(sig)) == Some(c)
    requires Recomputed(o, params, pk, sig, c, p, w1)
    ensures Verified(o, params, pk, m, sig).None? <==>
      exists n: nat :: n < params.ck && !RowExpands(o, PkRho(pk), n, params.el) && forall t :: 0 <= t <= n ==> p[t] <= params.omega
    ensures Verified(o, params, pk, m, sig) == Some(true) <==>
      && (forall n: nat :: n < params.ck ==> RowExpands(o, PkRho(pk), n, params.el))
      && (forall t :: 0 <= t <= params.ck ==> p[t] <= params.omega)
      && SeedOf(o, params, o.shake256(o.shake256(pk, 32) + m, 64), w1) == SigCt(sig)
  {
    hide IsOracle, Walked, VerifyRows, RowExpands, ChallengeSeed, SeedOf, NormBelow, SigZ, SigH, PkT1, HintBuffer, Challenge,
      HighVector;
    var k := Unpacked(o, params, pk, m, sig, c);
    RecomputedIsWalked(o, params, pk, m, sig, c, p, w1);
    RowsExact(o, params, k, p, w1, 0);
    WalkStart(o, params, k, p, w1);
    SeedOfIs(o, params, k.mu, w1);
    assert w1[..0 * DEGREE] == [];
  }

  lemma WalkStart(o: Oracle, params: Params, k: Check, p: seq<nat>, w1: seq<int>)
    requires IsOracle(o) && IsParams(params) && CheckParts(params, k) && Walked(o, params, k, p, w1)
    ensures |p| == params.ck + 1 && p[0] == 0
  {
    hide IsOracle, RRow, HintedRow, Pointer, HighVector;
  }

  /** The verdicts of verify: when it accepts and when it gives none; every other signature is rejected. */
  lemma VerdictExact(o: Oracle, params: Params, pk: seq<int>, m: seq<int>, sig: seq<int>)
    requires IsOracle(o) && IsParams(params) && Bytes(pk, PkSize(params)) && Bytes(sig, SigSize(params))
    ensures Verified(o, params, pk, m, sig) == Some(true) <==>
      && (forall n :: 0 <= n < params.el * DEGREE ==> Magnitude(SigZ(params, sig)[n]) < Gamma1(params) - params.tau * params.eta)
      && (forall i: nat :: i < params.ck ==> RowExpands(o, PkRho(pk), i, params.el))
      && exists c, p, w1 ::
           && |c| == DEGREE && ChallengeOf(o, params, SigCt(sig)) == Some(c)
           && Recomputed(o, params, pk, sig, c, p, w1)
           && (forall i :: 0 <= i <= params.ck ==> p[i] <= params.omega)
           && SeedOf(o, params, o.shake256(o.shake256(pk, 32) + m, 64), w1) == SigCt(sig)
    ensures Verified(o, params, pk, m, sig).None? <==>
      && (forall n :: 0 <= n < params.el * DEGREE ==> Magnitude(SigZ(params, sig)[n]) < Gamma1(params) - params.tau * params.eta)
      && (ChallengeOf(o, params, SigCt(sig)).None? || exists c, p, w1, n: nat ::
            && |c| == DEGREE && ChallengeOf(o, params, SigCt(sig)) == Some(c)
            && Recomputed(o, params, pk, sig, c, p, w1)
            && n < params.ck && !RowExpands(o, PkRho(pk), n, params.el) && forall t :: 0 <= t <= n ==> p[t] <= params.omega)
  {
    hide IsOracle, Recomputed, VerifyRows, RowExpands, SeedOf, SigZ, SigH, PkT1, HintBuffer, Challenge, Magnitude, Unpacked, OneNorm,
      HighVector;
    if NormBelow(SigZ(params, sig), Gamma1(params) - Beta(params)) && ChallengeOf(o, params, SigCt(sig)).Some? {
      ChallengeShape(o, params, SigCt(sig));
      var c := ChallengeOf(o, params, SigCt(sig)).value;
      var p, w1 := WalkExists(o, params, Unpacked(o, params, pk, m, sig, c));
      RecomputedIsWalked(o, params, pk, m, sig, c, p, w1);
      forall p, w1 | Recomputed(o, params, pk, sig, c, p, w1)
        ensures Verified(o, params, pk, m, sig).None? <==>
          exists n: nat :: n < params.ck && !RowExpands(o, PkRho(pk), n, params.el) && forall t :: 0 <= t <= n ==> p[t] <= params.omega
        ensures Verified(o, params, pk, m, sig) == Some(true) <==>
          && (forall n: nat :: n < params.ck ==> RowExpands(o, PkRho(pk), n, params.el))
          && (forall t :: 0 <= t <= params.ck ==> p[t] <= params.omega)
          && SeedOf(o, params, o.shake256(o.shake256(pk, 32) + m, 64), w1) == SigCt(sig)
      {
        VerdictWith(o, params, pk, m, sig, c, p, w1);
      }
    }
  }

  /** A signature whose recomputed high parts hash to anything but its seed is rejected. */
  lemma WrongSeedRejected(o: Oracle, params: Params, pk: seq<int>, m: seq<int>, sig: seq<int>, c: Poly, p: seq<nat>, w1: seq<int>)
    requires IsOracle(o) && IsParams(params) && Bytes(pk, PkSize(params)) && Bytes(sig, SigSize(params)) && |c| == DEGREE
    requires ChallengeOf(o, params, SigCt(sig)) == Some(c) && Recomputed(o, params, pk, sig, c, p, w1)
    requires forall i: nat :: i < params.ck ==> RowExpands(o, PkRho(pk), i, params.el)
    requires SeedOf(o, params, o.shake256(o.shake256(pk, 32) + m, 64), w1) != SigCt(sig)
    ensures Verified(o, params, pk, m, sig) == Some(false)
  {
    hide IsOracle, Recomputed, VerifyRows, RowExpands, SeedOf, SigZ, SigH, PkT1, HintBuffer, Challenge, Magnitude, Unpacked, OneNorm,
      HighVector, NormBelow;
    if NormBelow(SigZ(params, sig), Gamma1(params) - Beta(params)) {
      VerdictWith(o, params, pk, m, sig, c, p, w1);
      assert Verified(o, params, pk, m, sig).Some? && Verified(o, params, pk, m, sig).value != true;
    }
  }
}
