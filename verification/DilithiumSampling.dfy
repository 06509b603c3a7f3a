/** Sampling of dilithium.rs from the output of the extendable-output functions. */
module DilithiumSampling {
  import opened Wrappers
  import opened BitStream
  import opened QuotientRing
  import opened TransformTree
  import opened PolyVector
  import opened DilithiumTables
  import opened DilithiumRounding
  import opened DilithiumPacking
  import opened RejectionSampling

  /** SHAKE-128 and SHAKE-256, as arbitrary functions of the absorbed bytes and the output length. */
  datatype Oracle = Oracle(shake128: (seq<int>, nat) -> seq<int>, shake256: (seq<int>, nat) -> seq<int>)

  ghost predicate IsOracle(o: Oracle) {
    forall input: seq<int>, n: nat :: Bytes(o.shake128(input, n), n) && Bytes(o.shake256(input, n), n)
  }

  /** sample_sn: 272 bytes cut into small words, those up to 2 eta kept and centred. */
  function SmallPoly(params: Params, buff: seq<int>): (s: Option<seq<int>>)
    requires IsParams(params) && Bytes(buff, 272)
  {
    Powers();
    var words := Recoded(8, params.lg2eta1, if params.lg2eta1 == 3 then 725 else 544, buff);
    match FirstBelow(words, 2 * params.eta + 1)
    case None => None
    case Some(w) => Some(Flipped(params.eta, w))
  }

  lemma SmallPolyRange(params: Params, buff: seq<int>)
    requires IsParams(params) && Bytes(buff, 272) && SmallPoly(params, buff).Some?
    ensures Vector(SmallPoly(params, buff).value, 1, 0 - params.eta, params.eta)
  {
    hide Recoded, Pow2;
    Powers();
    var words := Recoded(8, params.lg2eta1, if params.lg2eta1 == 3 then 725 else 544, buff);
    BelowAtLeast(words, 2 * params.eta + 1, 0);
  }

  /** Coefficient j is eta minus the j-th of the buffer's words that is at most 2 eta. */
  lemma SmallExact(params: Params, buff: seq<int>)
    requires IsParams(params) && Bytes(buff, 272)
    ensures var s, words := SmallPoly(params, buff), Words(buff, params.lg2eta1, 272 * 8 / params.lg2eta1);
      && (s.None? <==> CountBelow(words, 2 * params.eta + 1, |words|) < DEGREE)
      && (s.Some? ==> forall j: nat :: j < DEGREE ==> IsNth(words, 2 * params.eta + 1, j, params.eta - s.value[j]))
  {
    hide Recoded, Pow2, FirstBelow, CountBelow, IsNth, Words;
    Powers();
    var n := if params.lg2eta1 == 3 then 725 else 544;
    RecodedWords(buff, params.lg2eta1, n);
    FirstBelowExact(Recoded(8, params.lg2eta1, n, buff), 2 * params.eta + 1);
  }

  method SampleSn(params: Params, buff: seq<int>) returns (s: Option<seq<int>>)
    requires IsParams(params) && Bytes(buff, 272)
    ensures s == SmallPoly(params, buff)
    ensures s.Some? ==> Vector(s.value, 1, 0 - params.eta, params.eta)
    ensures var words := Words(buff, params.lg2eta1, 272 * 8 / params.lg2eta1);
      && (s.None? <==> CountBelow(words, 2 * params.eta + 1, |words|) < DEGREE)
      && (s.Some? ==> forall j: nat :: j < DEGREE ==> IsNth(words, 2 * params.eta + 1, j, params.eta - s.value[j]))
  {
    hide Recoded, Pow2, FirstBelow, CountBelow, IsNth, Words;
    Powers();
    var n := if params.lg2eta1 == 3 then 725 else 544;
    SmallExact(params, buff);
    BufferBits(params.lg2eta1, n);
    var words, ptr := Recode(8, params.lg2eta1, n, buff);
    var w := TakeBelow(words, 2 * params.eta + 1);
    match w
    case None => s := None;
    case Some(t) =>
      s := Some(Flipped(params.eta, t));
      SmallPolyRange(params, buff);
  }

  lemma BufferBits(w: nat, n: nat)
    requires (w == 3 && n == 725) || (w == 4 && n == 544)
    ensures Bits(w, n) <= Bits(8, 272)
  {
  }

  /** The 23-bit candidates of expandaij: three bytes each, the top bit dropped. */
  function Candidates(buff: seq<int>): (c: seq<int>)
    ensures |c| == |buff| / 3
  {
    seq(|buff| / 3, i requires 0 <= i < |buff| / 3 =>
      (buff[3 * i + 2] % 128) * 0x1_0000 + buff[3 * i + 1] * 0x100 + buff[3 * i])
  }

  /** expandaij: an element of the matrix A, given by its transform. */
  function UniformPoly(buff: seq<int>): (a: Option<seq<int>>)
    requires Bytes(buff, 4 * DEGREE)
  {
    FirstBelow(Candidates(buff), Q)
  }

  lemma UniformPolyRange(buff: seq<int>)
    requires Bytes(buff, 4 * DEGREE) && UniformPoly(buff).Some?
    ensures Vector(UniformPoly(buff).value, 1, 0, Q - 1)
  {
    BelowAtLeast(Candidates(buff), Q, 0);
  }

  /** The low 23 bits of every 24 of the buffer. */
  function Fields(buff: seq<int>): (c: seq<int>)
    requires Bytes(buff, 4 * DEGREE)
  {
    seq(4 * DEGREE / 3, i requires 0 <= i < 4 * DEGREE / 3 => BitField(buff, 24 * i, 23))
  }

  lemma CandidateField(buff: seq<int>, i: nat)
    requires Bytes(buff, 4 * DEGREE) && i < 4 * DEGREE / 3
    ensures (buff[3 * i + 2] % 128) * 0x1_0000 + buff[3 * i + 1] * 0x100 + buff[3 * i] == BitField(buff, 24 * i, 23)
  {
    hide Pow2, Val, Shr, Low;
    Powers();
    var rest := ThreeBytes(buff, 3 * i);
    var b2 := buff[3 * i + 2];
    ShrUnique(Shr(Val(8, buff), 24 * i), 23, b2 / 128 + 2 * rest, (b2 % 128) * 0x1_0000 + buff[3 * i + 1] * 0x100 + buff[3 * i]);
  }

  /** The candidates are the low 23 bits of every three bytes read as a number. */
  lemma CandidatesAreFields(buff: seq<int>)
    requires Bytes(buff, 4 * DEGREE)
    ensures Candidates(buff) == Fields(buff)
  {
    hide BitField;
    forall i: nat | i < 4 * DEGREE / 3 ensures Candidates(buff)[i] == BitField(buff, 24 * i, 23) {
      CandidateField(buff, i);
    }
  }

  /** The rejection loop of expandaij: three bytes a round, the top bit dropped. */
  method ExpandAij(buff: seq<int>) returns (a: Option<seq<int>>)
    requires Bytes(buff, 4 * DEGREE)
    ensures a == UniformPoly(buff) && (a.Some? ==> Vector(a.value, 1, 0, Q - 1))
    ensures a.None? <==> CountBelow(Fields(buff), Q, 4 * DEGREE / 3) < DEGREE
    ensures a.Some? ==> forall j: nat :: j < DEGREE ==> IsNth(Fields(buff), Q, j, a.value[j])
  {
    hide FirstBelow, Below, Taken, IsNth, CountBelow, Fields;
    ghost var c := Candidates(buff);
    var got: seq<int> := [];
    NoneTaken(c, Q);
    var k := 0;
    while |got| < DEGREE && 3 * k + 3 <= 4 * DEGREE
      invariant 0 <= k <= 4 * DEGREE / 3 && |got| <= DEGREE && Taken(got, c[..k], Q)
      decreases 4 * DEGREE - 3 * k
    {
      TakenStep(got, c, k, Q);
      var b0, b1, b2 := buff[3 * k], buff[3 * k + 1], buff[3 * k + 2];
      var cf := (b2 % 128) * 0x1_0000 + b1 * 0x100 + b0;
      if cf < Q {
        got := got + [cf];
      }
      k := k + 1;
    }
    AllTaken(got, c, k, Q);
    CandidatesAreFields(buff);
    FirstBelowExact(c, Q);
    a := if |got| < DEGREE then None else Some(got);
    if a.Some? {
      UniformPolyRange(buff);
    }
  }

  /** sample_y: one row of the mask, gamma1 - w for every (lg + 1)-bit word, canonical. */
  function MaskPoly(params: Params, buff: seq<int>): (y: seq<int>)
    requires IsParams(params) && Bytes(buff, 32 * (params.lg + 1))
    ensures Vector(y, 1, 0, Q - 1)
  {
    Gamma1Bits(params);
    Uncentring(Gamma1(params), Recoded(8, params.lg + 1, DEGREE, buff))
  }

  /** Coefficient k is gamma1 minus the k-th word, modulo q. */
  lemma MaskExact(params: Params, buff: seq<int>)
    requires IsParams(params) && Bytes(buff, 32 * (params.lg + 1))
    ensures forall k :: 0 <= k < DEGREE ==>
      MaskPoly(params, buff)[k]
        == ((if params.lg == 17 then 0x2_0000 else 0x8_0000) - BitField(buff, (params.lg + 1) * k, params.lg + 1)) % Q
  {
    hide Recoded, Pow2, BitField;
    Gamma1Bits(params);
    RecodedWords(buff, params.lg + 1, DEGREE);
  }

  method SampleYRow(params: Params, buff: seq<int>) returns (y: seq<int>)
    requires IsParams(params) && Bytes(buff, 32 * (params.lg + 1))
    ensures y == MaskPoly(params, buff)
    ensures forall k :: 0 <= k < DEGREE ==>
      y[k] == ((if params.lg == 17 then 0x2_0000 else 0x8_0000) - BitField(buff, (params.lg + 1) * k, params.lg + 1)) % Q
  {
    hide Recoded, Bits, Pow2, BitField;
    MaskExact(params, buff);
    Gamma1Bits(params);
    ByteCount(params.lg + 1, 1);
    var words, ptr := Recode(8, params.lg + 1, DEGREE, buff);
    y := Uncentring(Gamma1(params), words);
  }

  // ----- the challenge -----

  predicate Ternary(c: seq<int>) { forall i :: 0 <= i < |c| ==> -1 <= c[i] <= 1 }

  lemma {:induction false} OneNormUpdate(c: seq<int>, i: nat, v: int)
    requires i < |c|
    ensures OneNorm(c[i := v]) == OneNorm(c) - Abs(c[i]) + Abs(v)
  {
    if i > 0 {
      assert c[i := v][1..] == c[1..][i - 1 := v];
      OneNormUpdate(c[1..], i - 1, v);
    } else {
      assert c[i := v][1..] == c[1..];
    }
  }

  lemma {:induction false} OneNormZero(n: nat)
    ensures OneNorm(Zero(n)) == 0
  {
    if n > 0 {
      assert Zero(n)[1..] == Zero(n - 1);
      OneNormZero(n - 1);
    }
  }

  /** The inner loop of sampleinball: the next byte not above i, and the index after it. */
  function NextAtMost(buff: seq<int>, k: nat, i: nat): (r: Option<(nat, nat)>)
    ensures r.Some? ==> k < r.value.1 <= |buff| && r.value.0 <= i && buff[r.value.1 - 1] == r.value.0
    decreases |buff| - k
  {
    if k >= |buff| then None
    else if 0 <= buff[k] <= i then Some((buff[k], k + 1))
    else NextAtMost(buff, k + 1, i)
  }

  /** Every byte passed over is above i, and there is no answer only if all the rest are. */
  lemma {:induction false} NextAtMostIsFirst(buff: seq<int>, k: nat, i: nat)
    requires Bytes(buff, |buff|)
    ensures var r := NextAtMost(buff, k, i);
      forall n :: k <= n < (if r.Some? then r.value.1 - 1 else |buff|) ==> buff[n] > i
    decreases |buff| - k
  {
    if k < |buff| && buff[k] > i {
      NextAtMostIsFirst(buff, k + 1, i);
    }
  }

  /** Bit b of the 64 sign bits. */
  function SignBit(buff: seq<int>, b: nat): (s: int)
    requires |buff| >= 8
  {
    if b < 64 then (buff[b / 8] / Pow2(b % 8)) % 2 else 0
  }

  /** The challenge after the positions 256 - tau .. i have been shuffled in, and the read index. */
  function Shuffled(tau: nat, buff: seq<int>, i: nat): (r: Option<(seq<int>, nat)>)
    requires tau <= DEGREE && DEGREE - tau <= i <= DEGREE && |buff| >= 8
    ensures r.Some? ==> |r.value.0| == DEGREE
    decreases i
  {
    if i == DEGREE - tau then Some((Zero(DEGREE), 8))
    else
      match Shuffled(tau, buff, i - 1)
      case None => None
      case Some((c, k)) =>
        match NextAtMost(buff, k, i - 1)
        case None => None
        case Some((j, k')) =>
          Some((c[i - 1 := c[j]][j := 1 - 2 * SignBit(buff, i - 1 - (DEGREE - tau))], k'))
  }

  /** sampleinball. */
  function Challenge(tau: nat, buff: seq<int>): (c: Option<seq<int>>)
    requires tau <= DEGREE && |buff| >= 8
  {
    match Shuffled(tau, buff, DEGREE)
    case None => None
    case Some((c, k)) => Some(c)
  }

  /** Every shuffle step adds one coefficient 1 or -1 and loses none. */
  lemma {:induction false} ShuffledWeight(tau: nat, buff: seq<int>, i: nat)
    requires tau <= DEGREE && DEGREE - tau <= i <= DEGREE && |buff| >= 8 && Shuffled(tau, buff, i).Some?
    ensures var c := Shuffled(tau, buff, i).value.0;
      Ternary(c) && OneNorm(c) == i - (DEGREE - tau) && forall j :: i <= j < DEGREE ==> c[j] == 0
  {
    hide OneNorm, Pow2, NextAtMost, Zero;
    if i == DEGREE - tau {
      OneNormZero(DEGREE);
      ZeroAt(DEGREE);
    } else {
      ShuffledWeight(tau, buff, i - 1);
      var (c, k) := Shuffled(tau, buff, i - 1).value;
      var (j, k') := NextAtMost(buff, k, i - 1).value;
      var s := 1 - 2 * SignBit(buff, i - 1 - (DEGREE - tau));
      SignBitRange(buff, i - 1 - (DEGREE - tau));
      OneNormUpdate(c, i - 1, c[j]);
      OneNormUpdate(c[i - 1 := c[j]], j, s);
    }
  }

  lemma ZeroAt(n: nat)
    ensures forall i :: 0 <= i < n ==> Zero(n)[i] == 0
  {
  }

  lemma SignBitRange(buff: seq<int>, b: nat)
    requires |buff| >= 8
    ensures SignBit(buff, b) == 0 || SignBit(buff, b) == 1
  {
    hide Pow2;
  }

  lemma SignBitIsField(buff: seq<int>, b: nat)
    requires Bytes(buff, |buff|) && |buff| >= 8 && b < 64
    ensures SignBit(buff, b) == BitField(buff, b, 1)
  {
    hide BitField, Pow2;
    Powers();
    BitInByte(buff, b);
    ShrIs(buff[b / 8], b % 8);
  }

  /** The challenge has exactly tau non-zero coefficients, each 1 or -1. */
  lemma ChallengeWeight(tau: nat, buff: seq<int>)
    requires tau <= DEGREE && |buff| >= 8 && Challenge(tau, buff).Some?
    ensures var c := Challenge(tau, buff).value; |c| == DEGREE && Ternary(c) && OneNorm(c) == tau
  {
    hide OneNorm, Shuffled;
    ShuffledWeight(tau, buff, DEGREE);
  }

  method SampleInBall(params: Params, buff: seq<int>) returns (c: Option<seq<int>>)
    requires IsParams(params) && Bytes(buff, 136)
    ensures c == Challenge(params.tau, buff)
  {
    hide Pow2, NextAtMost, SignByte, SignBit, Shuffled;
    var tau := params.tau;
    var signs := buff[..8];
    SignByteFacts(buff, 0, 0);
    var k := 8;
    var b := 0;
    var n := 1;
    var sn := signs[0];
    var ch := Zero(DEGREE);
    ShuffledStart(tau, buff);
    for i := DEGREE - tau to DEGREE
      invariant Shuffled(tau, buff, i) == Some((ch, k)) && 8 <= k
      invariant 0 <= b < 8 && 8 * (n - 1) + b == i - (DEGREE - tau) && 1 <= n <= 8
      invariant sn == SignByte(buff, n - 1, b)
    {
      var j: Option<nat>;
      ShuffledNext(tau, buff, i, ch, k);
      j, k := FindAtMost(buff, k, i);
      if j.None? {
        ShuffleStuck(tau, buff, i + 1);
        return None;
      }
      ch := ch[i := ch[j.value]];
      ch := ch[j.value := 1 - 2 * (sn % 2)];
      SignByteFacts(buff, n - 1, b);
      sn := sn / 2;
      b := b + 1;
      if b == 8 {
        sn := signs[n];
        SignByteFacts(buff, n, 0);
        n := n + 1;
        b := 0;
      }
    }
    c := Some(ch);
  }

  lemma ShuffledStart(tau: nat, buff: seq<int>)
    requires tau <= DEGREE && |buff| >= 8
    ensures Shuffled(tau, buff, DEGREE - tau) == Some((Zero(DEGREE), 8))
  {
    hide Zero;
  }

  lemma ShuffledNext(tau: nat, buff: seq<int>, i: nat, c: seq<int>, k: nat)
    requires tau <= DEGREE && DEGREE - tau <= i < DEGREE && |buff| >= 8 && Shuffled(tau, buff, i) == Some((c, k))
    ensures NextAtMost(buff, k, i).None? ==> Shuffled(tau, buff, i + 1).None?
    ensures NextAtMost(buff, k, i).Some? ==>
      var (j, k') := NextAtMost(buff, k, i).value;
      Shuffled(tau, buff, i + 1) == Some((c[i := c[j]][j := 1 - 2 * SignBit(buff, i - (DEGREE - tau))], k'))
  {
    hide NextAtMost, SignBit;
  }

  /** Sign byte n shifted down by b. */
  function SignByte(buff: seq<int>, n: nat, b: nat): (v: int)
    requires n < |buff|
  {
    buff[n] / Pow2(b)
  }

  lemma SignByteFacts(buff: seq<int>, n: nat, b: nat)
    requires |buff| >= 8 && n < 8 && b < 8 && 0 <= buff[n]
    ensures SignByte(buff, n, 0) == buff[n]
    ensures SignBit(buff, 8 * n + b) == SignByte(buff, n, b) % 2
    ensures SignByte(buff, n, b) / 2 == SignByte(buff, n, b + 1)
  {
    assert Pow2(0) == 1;
    hide Pow2;
    assert (8 * n + b) / 8 == n && (8 * n + b) % 8 == b;
    ShiftOne(buff[n], b);
  }

  lemma ShiftOne(x: int, b: nat)
    requires 0 <= x
    ensures (x / Pow2(b)) / 2 == x / Pow2(b + 1)
  {
    hide Pow2, Shr;
    assert x / Pow2(b) == Shr(x, b) && x / Pow2(b + 1) == Shr(x, b + 1) by {
      ShrIs(x, b);
      ShrIs(x, b + 1);
    }
    ShrShr(x, b, 1);
    ShrByOne(Shr(x, b));
  }

  lemma ShrIs(x: nat, b: nat)
    ensures x / Pow2(b) == Shr(x, b)
  {
    hide Pow2;
  }

  lemma ShrByOne(x: nat)
    ensures Shr(x, 1) == x / 2
  {
    assert Pow2(1) == 2;
  }

  /** A challenge that stops short stays undefined. */
  lemma {:induction false} ShuffleStuck(tau: nat, buff: seq<int>, i: nat)
    requires tau <= DEGREE && DEGREE - tau <= i <= DEGREE && |buff| >= 8 && Shuffled(tau, buff, i).None?
    ensures Challenge(tau, buff).None?
    decreases DEGREE - i
  {
    hide NextAtMost, Pow2;
    if i < DEGREE {
      ShuffleStuck(tau, buff, i + 1);
    }
  }

  method FindAtMost(buff: seq<int>, k: nat, i: nat) returns (j: Option<nat>, k': nat)
    requires Bytes(buff, 136)
    ensures NextAtMost(buff, k, i) == if j.Some? then Some((j.value, k')) else None
  {
    k' := k;
    while k' < |buff|
      invariant k <= k' && NextAtMost(buff, k, i) == NextAtMost(buff, k', i)
    {
      var v := buff[k'];
      k' := k' + 1;
      if v <= i {
        return Some(v), k';
      }
    }
    j := None;
  }
}
