/** Which masks sign: the rejection loop of signature ends with the first mask that meets four bounds. */
module DilithiumRejection {
  import opened Wrappers
  import opened QuotientRing
  import opened TransformTree
  import opened PolyVector
  import opened DilithiumTables
  import opened DilithiumRounding
  import opened DilithiumHints
  import opened DilithiumPacking
  import opened DilithiumSampling
  import opened DilithiumSpec
  import opened DilithiumScheme

  /** Hints that one row needs: the coefficients whose high part w - c s2 + c t0 and w - c s2 do not share. */
  function RowHints(params: Params, w: Poly, s2: Poly, t0: Poly, c: Poly): (n: nat)
    requires IsParams(params) && |w| == |s2| == |t0| == |c| == DEGREE
  {
    var u, n := URow(w, s2, c), NRow(t0, c);
    |set m | 0 <= m < DEGREE && Differs(params.dv, VRow(u, n)[m], n[m])|
  }

  lemma {:induction false} PositionsCount(dv: nat, r: seq<int>, z: seq<int>, m: nat)
    requires IsDivisor(dv) && m <= |r| == |z|
    ensures |Positions(dv, r, z, m)| == |set i | 0 <= i < m && Differs(dv, r[i], z[i])|
  {
    hide Differs;
    var all := set i | 0 <= i < m && Differs(dv, r[i], z[i]);
    if m == 0 {
      assert all == {};
    } else {
      var less := set i | 0 <= i < m - 1 && Differs(dv, r[i], z[i]);
      PositionsCount(dv, r, z, m - 1);
      assert all == less + (if Differs(dv, r[m - 1], z[m - 1]) then {m - 1} else {});
    }
  }

  /** Hints that the first n rows of w = A y need together. */
  function Hints(params: Params, ay: seq<int>, s2: seq<int>, t0: seq<int>, c: Poly, n: nat): (t: nat)
    requires IsParams(params) && |ay| == |s2| == |t0| == params.ck * DEGREE && |c| == DEGREE && n <= params.ck
  {
    if n == 0 then 0
    else Hints(params, ay, s2, t0, c, n - 1) + RowHints(params, Row(ay, n - 1), Row(s2, n - 1), Row(t0, n - 1), c)
  }

  lemma {:induction false} HintsGrow(params: Params, ay: seq<int>, s2: seq<int>, t0: seq<int>, c: Poly, m: nat, n: nat)
    requires IsParams(params) && |ay| == |s2| == |t0| == params.ck * DEGREE && |c| == DEGREE && m <= n <= params.ck
    ensures Hints(params, ay, s2, t0, c, m) <= Hints(params, ay, s2, t0, c, n)
  {
    hide RowHints;
    if m < n {
      HintsGrow(params, ay, s2, t0, c, m, n - 1);
    }
  }

  /** The rows of w = A y. */
  function Commitment(o: Oracle, params: Params, rho: seq<int>, y: seq<int>, n: nat): (ay: seq<int>)
    requires IsOracle(o) && |y| == params.el * DEGREE
    ensures |ay| == n * DEGREE
  {
    if n == 0 then [] else Commitment(o, params, rho, y, n - 1) + WRow(o, params, rho, y, n - 1)
  }

  lemma {:induction false} CommitmentRows(o: Oracle, params: Params, rho: seq<int>, y: seq<int>, n: nat)
    requires IsOracle(o) && IsParams(params) && |y| == params.el * DEGREE
    ensures Committed(o, params, rho, y, Commitment(o, params, rho, y, n), HighRows(o, params, rho, y, n), n)
  {
    hide IsOracle, WRow, HighRow, Committed;
    if n == 0 {
      CommittedNothing(o, params, rho, y);
    } else {
      CommitmentRows(o, params, rho, y, n - 1);
      CommittedStep(o, params, rho, y, Commitment(o, params, rho, y, n - 1), HighRows(o, params, rho, y, n - 1), n - 1,
                    WRow(o, params, rho, y, n - 1));
    }
  }

  /** Row i of the commitment is within the two bounds on rows. */
  ghost predicate RowShort(params: Params, w: Poly, s2: Poly, t0: Poly, c: Poly)
    requires IsParams(params) && |w| == |s2| == |t0| == |c| == DEGREE
  {
    && NormBelow(LowRow(params.dv, URow(w, s2, c)), Gamma2(params.dv) - Beta(params))
    && NormBelow(NRow(t0, c), Gamma2(params.dv))
  }

  // ----- short rows can be signed -----

  /** A hint buffer for rows within the bounds. */
  lemma HintBufferExists(params: Params, ay: seq<int>, s2: seq<int>, t0: seq<int>, c: Poly) returns (h: seq<int>, nh: nat)
    requires IsParams(params) && |ay| == |s2| == |t0| == params.ck * DEGREE && |c| == DEGREE
    requires forall i: nat :: i < params.ck ==> RowShort(params, Row(ay, i), Row(s2, i), Row(t0, i), c)
    requires Hints(params, ay, s2, t0, c, params.ck) <= params.omega
    ensures Bytes(h, HINT_BYTES) && RowsSigned(params, ay, s2, t0, c, h, nh, params.ck)
  {
    hide RowHints, RowShort, RowsSigned, Hints, Row, HintsAppended;
    h, nh := Zero(HINT_BYTES), 0;
    NoRowsSigned(params, ay, s2, t0, c, h);
    NoHints(params, ay, s2, t0, c);
    for i := 0 to params.ck
      invariant Bytes(h, HINT_BYTES) && nh == Hints(params, ay, s2, t0, c, i) && RowsSigned(params, ay, s2, t0, c, h, nh, i)
    {
      h, nh := NextHints(params, ay, s2, t0, c, h, nh, i);
    }
  }

  lemma NoHints(params: Params, ay: seq<int>, s2: seq<int>, t0: seq<int>, c: Poly)
    requires IsParams(params) && |ay| == |s2| == |t0| == params.ck * DEGREE && |c| == DEGREE
    ensures Hints(params, ay, s2, t0, c, 0) == 0
  {
  }

  lemma NextHints(params: Params, ay: seq<int>, s2: seq<int>, t0: seq<int>, c: Poly, h: seq<int>, nh: nat, i: nat)
    returns (h': seq<int>, nh': nat)
    requires IsParams(params) && |ay| == |s2| == |t0| == params.ck * DEGREE && |c| == DEGREE && i < params.ck
    requires RowShort(params, Row(ay, i), Row(s2, i), Row(t0, i), c)
    requires Hints(params, ay, s2, t0, c, params.ck) <= params.omega
    requires Bytes(h, HINT_BYTES) && nh == Hints(params, ay, s2, t0, c, i) && RowsSigned(params, ay, s2, t0, c, h, nh, i)
    ensures Bytes(h', HINT_BYTES) && nh' == Hints(params, ay, s2, t0, c, i + 1)
    ensures RowsSigned(params, ay, s2, t0, c, h', nh', i + 1)
  {
    hide URow, NRow, VRow, NormBelow, LowRow, Positions, RowsSigned, Row, HintsAppended, Differs;
    var u, n := URow(Row(ay, i), Row(s2, i), c), NRow(Row(t0, i), c);
    var p := Positions(params.dv, VRow(u, n), n, DEGREE);
    PositionsCount(params.dv, VRow(u, n), n, DEGREE);
    HintsGrow(params, ay, s2, t0, c, i + 1, params.ck);
    nh' := nh + |p|;
    h' := (h[..nh] + p + h[nh'..])[params.omega + i := nh'];
    AppendedBy(params, h, h', nh, i, p, nh');
    RowsSignedStep(params, ay, s2, t0, c, h, h', nh, i, p);
  }

  /** The response z, row by row. */
  lemma ResponseExists(params: Params, y: seq<int>, s1: seq<int>, c: Poly, g: int) returns (z: seq<int>)
    requires IsParams(params) && |y| == |s1| == params.el * DEGREE && |c| == DEGREE
    requires forall j: nat :: j < params.el ==> NormBelow(ZRow(Row(y, j), Row(s1, j), c), g)
    ensures |z| == params.el * DEGREE && NormBelow(z, g)
    ensures forall j: nat :: j < params.el ==> Row(z, j) == ZRow(Row(y, j), Row(s1, j), c)
  {
    hide ZRow, NormBelow;
    z := [];
    NormOfNothing(g);
    for j := 0 to params.el
      invariant |z| == j * DEGREE && NormBelow(z, g)
      invariant forall k: nat :: k < j ==> Row(z, k) == ZRow(Row(y, k), Row(s1, k), c)
    {
      var row := ZRow(Row(y, j), Row(s1, j), c);
      RowsAppend(z, row, j);
      NormAppend(z, row, g);
      z := z + row;
    }
  }

  // ----- signed rows are short -----

  lemma {:induction false} SignedHints(params: Params, ay: seq<int>, s2: seq<int>, t0: seq<int>, c: Poly, h: seq<int>, n: nat)
    requires IsParams(params) && |ay| == |s2| == |t0| == params.ck * DEGREE && |c| == DEGREE && n <= params.ck
    requires |h| >= params.omega + params.ck
    requires forall i: nat :: i < n ==> SignRow(params, Row(ay, i), Row(s2, i), Row(t0, i), c, h, i)
    ensures Hints(params, ay, s2, t0, c, n) == HintStart(params, h, n) <= params.omega
  {
    hide URow, NRow, VRow, NormBelow, LowRow, Positions, Row, Differs;
    if n > 0 {
      SignedHints(params, ay, s2, t0, c, h, n - 1);
      var u, e := URow(Row(ay, n - 1), Row(s2, n - 1), c), NRow(Row(t0, n - 1), c);
      SignedLength(params, Row(ay, n - 1), Row(s2, n - 1), Row(t0, n - 1), c, h, n - 1);
      PositionsCount(params.dv, VRow(u, e), e, DEGREE);
    }
  }

  // ----- the two together -----

  /** c is the challenge that the commitment to y draws. */
  ghost predicate Draws(o: Oracle, params: Params, sk: SecretKey, m: seq<int>, y: seq<int>, c: Poly)
    requires IsOracle(o) && IsParams(params)
  {
    && |c| == DEGREE && Vector(y, params.el, 0, Q - 1)
    && var w1 := HighRows(o, params, sk.rho, y, params.ck);
       HighVector(params, w1) && ChallengeOf(o, params, ChallengeSeed(o, params, Mu(o, sk.tr, m), w1)) == Some(c)
  }

  /** The four bounds of signature: on z, on the low parts, on c t0, and on the number of hints. */
  ghost predicate Short(o: Oracle, params: Params, sk: SecretKey, y: seq<int>, c: Poly)
    requires IsOracle(o) && IsParams(params) && SkShape(params, sk) && |y| == params.el * DEGREE && |c| == DEGREE
  {
    && (forall j: nat :: j < params.el ==>
          NormBelow(ZRow(Row(y, j), Row(sk.s1, j), c), Gamma1(params) - params.tau * params.eta))
    && (forall i: nat :: i < params.ck ==>
          && NormBelow(LowRow(params.dv, URow(WRow(o, params, sk.rho, y, i), Row(sk.s2, i), c)),
                       Gamma2(params.dv) - params.tau * params.eta)
          && NormBelow(NRow(Row(sk.t0, i), c), Gamma2(params.dv)))
    && Hints(params, Commitment(o, params, sk.rho, y, params.ck), sk.s2, sk.t0, c, params.ck) <= params.omega
  }

  lemma ShortSigns(o: Oracle, params: Params, sk: SecretKey, m: seq<int>, y: seq<int>, c: Poly)
    requires IsOracle(o) && IsParams(params) && SkShape(params, sk) && Draws(o, params, sk, m, y, c)
    requires Short(o, params, sk, y, c)
    ensures !CannotSign(o, params, sk, m, y)
  {
    hide IsOracle, NormBelow, SignRow, HighRows, WRow, ZRow, URow, NRow, LowRow, ChallengeSeed, Challenge, Commitment, Committed, Hints,
      RowsSigned, Signed;
    var ay, w1 := Commitment(o, params, sk.rho, y, params.ck), HighRows(o, params, sk.rho, y, params.ck);
    CommitmentRows(o, params, sk.rho, y, params.ck);
    CommittedRows(o, params, sk.rho, y, ay, w1);
    var h, nh := HintBufferExists(params, ay, sk.s2, sk.t0, c);
    RowsSignedAll(o, params, sk, y, ay, w1, c, h, nh);
    var z := ResponseExists(params, y, sk.s1, c, Gamma1(params) - Beta(params));
    var ct, g := ChallengeSeed(o, params, Mu(o, sk.tr, m), w1), h[..params.omega + params.ck];
    SignedIntro(o, params, sk, m, y, c, z, ct, g, w1);
  }

  lemma SignedIsShort(o: Oracle, params: Params, sk: SecretKey, m: seq<int>, y: seq<int>, c: Poly, z: seq<int>, ct: seq<int>,
                      h: seq<int>)
    requires IsOracle(o) && IsParams(params) && SkShape(params, sk) && Signed(o, params, sk, m, y, c, z, ct, h)
    ensures Draws(o, params, sk, m, y, c) && Short(o, params, sk, y, c)
  {
    hide IsOracle, NormBelow, HighRows, WRow, ZRow, URow, NRow, LowRow, VRow, ChallengeSeed, Challenge, Commitment, Committed, Hints,
      Positions, HintStart, Row;
    var ay, w1 := Commitment(o, params, sk.rho, y, params.ck), HighRows(o, params, sk.rho, y, params.ck);
    CommitmentRows(o, params, sk.rho, y, params.ck);
    CommittedRows(o, params, sk.rho, y, ay, w1);
    SignedHints(params, ay, sk.s2, sk.t0, c, h, params.ck);
    forall j: nat | j < params.el ensures NormBelow(ZRow(Row(y, j), Row(sk.s1, j), c), Gamma1(params) - Beta(params)) {
      NormOfPart(z, j, Gamma1(params) - Beta(params));
    }
  }

  /** A round is rejected exactly if its mask breaks one of the four bounds. */
  lemma RejectedExactly(o: Oracle, params: Params, sk: SecretKey, m: seq<int>, y: seq<int>, c: Poly)
    requires IsOracle(o) && IsParams(params) && SkShape(params, sk) && Draws(o, params, sk, m, y, c)
    ensures CannotSign(o, params, sk, m, y) <==> !Short(o, params, sk, y, c)
  {
    hide IsOracle, Short, Signed, ChallengeSeed, Challenge, HighRows, HighVector;
    if Short(o, params, sk, y, c) {
      ShortSigns(o, params, sk, m, y, c);
    } else {
      forall c', z, ct, h ensures !Signed(o, params, sk, m, y, c', z, ct, h) {
        if Signed(o, params, sk, m, y, c', z, ct, h) {
          SignedIsShort(o, params, sk, m, y, c', z, ct, h);
        }
      }
    }
  }

  /** A mask that makes no sampler panic draws a challenge. */
  lemma DrawsUnlessPanic(o: Oracle, params: Params, sk: SecretKey, m: seq<int>, y: seq<int>) returns (c: Poly)
    requires IsOracle(o) && IsParams(params) && SkShape(params, sk) && Vector(y, params.el, 0, Q - 1)
    requires !Panics(o, params, sk, m, y)
    ensures Draws(o, params, sk, m, y, c)
  {
    hide IsOracle, HighRows, RowExpands, ChallengeSeed, Challenge, Committed, Commitment, OneNorm;
    var w1 := HighRows(o, params, sk.rho, y, params.ck);
    CommitmentRows(o, params, sk.rho, y, params.ck);
    CommittedParts(o, params, sk.rho, y, Commitment(o, params, sk.rho, y, params.ck), w1);
    var ct := ChallengeSeed(o, params, Mu(o, sk.tr, m), w1);
    ChallengeShape(o, params, ct);
    c := ChallengeOf(o, params, ct).value;
  }

  /** y draws a challenge and meets the bounds with it, or draws one and breaks them. */
  ghost predicate Meets(o: Oracle, params: Params, sk: SecretKey, m: seq<int>, y: seq<int>)
    requires IsOracle(o) && IsParams(params) && SkShape(params, sk)
  {
    exists c :: Draws(o, params, sk, m, y, c) && Short(o, params, sk, y, c)
  }

  ghost predicate Breaks(o: Oracle, params: Params, sk: SecretKey, m: seq<int>, y: seq<int>)
    requires IsOracle(o) && IsParams(params) && SkShape(params, sk)
  {
    exists c :: Draws(o, params, sk, m, y, c) && !Short(o, params, sk, y, c)
  }

  /** signature signs with the first mask within the bounds: those before it break one, and it breaks none. */
  lemma FirstShortMask(o: Oracle, params: Params, sk: SecretKey, m: seq<int>, n: nat, sig: seq<int>)
    requires IsOracle(o) && IsParams(params) && SkShape(params, sk)
    requires AllRejected(o, params, sk, m, n) && SignedWith(o, params, sk, m, RoundMask(o, params, sk, m, n), sig)
    ensures forall k: nat :: k < n ==> Breaks(o, params, sk, m, RoundMask(o, params, sk, m, k))
    ensures Meets(o, params, sk, m, RoundMask(o, params, sk, m, n)) && !Breaks(o, params, sk, m, RoundMask(o, params, sk, m, n))
  {
    hide IsOracle, Short, Signed, Panics, CannotSign, Masks, SigBytes, ChallengeSeed, Challenge, HighRows, HighVector;
    forall k: nat | k < n ensures Breaks(o, params, sk, m, RoundMask(o, params, sk, m, k)) {
      var y := RoundMask(o, params, sk, m, k);
      var c := DrawsUnlessPanic(o, params, sk, m, y);
      RejectedExactly(o, params, sk, m, y, c);
    }
    var y := RoundMask(o, params, sk, m, n);
    var c, z, ct, h :| Signed(o, params, sk, m, y, c, z, ct, h) && SigParts(params, z, ct, h) && sig == SigBytes(params, z, ct, h);
    SignedIsShort(o, params, sk, m, y, c, z, ct, h);
  }
}
