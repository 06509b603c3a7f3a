/** Sampling of kyber.rs: the binomial noise and the uniform matrix elements. */
module KyberSampling {
  import opened Wrappers
  import opened BitStream
  import opened QuotientRing
  import opened TransformTree
  import opened PolyVector
  import opened RejectionSampling
  import opened KyberTables

  /** K, eta1, eta2, du, dv; the shared secret has 32 bytes for every level. */
  datatype Params = Params(ck: nat, eta1: nat, eta2: nat, du: nat, dv: nat)

  const PARAMS_512: Params := Params(2, 3, 2, 10, 4)
  const PARAMS_768: Params := Params(3, 2, 2, 10, 4)
  const PARAMS_1024: Params := Params(4, 2, 2, 11, 5)

  predicate IsParams(params: Params) { params == PARAMS_512 || params == PARAMS_768 || params == PARAMS_1024 }

  /** SHAKE-128, SHAKE-256, SHA3-256 and SHA3-512 as arbitrary functions of the absorbed bytes. */
  datatype Oracle = Oracle(shake128: (seq<int>, nat) -> seq<int>, shake256: (seq<int>, nat) -> seq<int>,
                           hash256: seq<int> -> seq<int>, hash512: seq<int> -> seq<int>)

  ghost predicate IsOracle(o: Oracle) {
    && (forall input: seq<int>, n: nat :: Bytes(o.shake128(input, n), n) && Bytes(o.shake256(input, n), n))
    && (forall input: seq<int> :: Bytes(o.hash256(input), 32) && Bytes(o.hash512(input), 64))
  }

  // ----- cbd -----

  /** getbit. */
  function GetBit(b: seq<int>, n: nat): (v: int)
    requires Bytes(b, |b|) && n / 8 < |b|
    ensures 0 <= v <= 1
  {
    Low(Shr(b[n / 8], n % 8), 1)
  }

  /** The number of ones among the n bits from position p. */
  function Ones(b: seq<int>, p: nat, n: nat): (c: int)
    requires Bytes(b, |b|) && p + n <= 8 * |b|
    ensures 0 <= c <= n
  {
    if n == 0 then 0 else Ones(b, p, n - 1) + GetBit(b, p + n - 1)
  }

  /** cbd: ones of one run of eta bits minus ones of the next, from the first 64 eta bytes. */
  function Binomial(b: seq<int>, eta: nat): (f: Poly)
    requires Bytes(b, |b|) && |b| >= 64 * eta
    ensures Vector(f, 1, 0 - eta, eta)
  {
    seq(DEGREE, i requires 0 <= i < DEGREE => BinomialAt(b, eta, i))
  }

  function BinomialAt(b: seq<int>, eta: nat, i: nat): (v: int)
    requires Bytes(b, |b|) && |b| >= 64 * eta && i < DEGREE
    ensures 0 - eta <= v <= eta
  {
    RunInRange(b, eta, i);
    Ones(b, 2 * i * eta, eta) - Ones(b, 2 * i * eta + eta, eta)
  }

  lemma RunInRange(b: seq<int>, eta: nat, i: nat)
    requires |b| >= 64 * eta && i < DEGREE
    ensures 2 * i * eta + eta + eta <= 8 * |b|
  {
    MulMonotone(eta, i + 1, DEGREE);
    assert 2 * i * eta + 2 * eta == 2 * (eta * (i + 1));
  }

  /** How many of the n bits from position p are set. */
  function BitsSet(b: seq<int>, p: nat, n: nat): (c: nat)
    requires Bytes(b, |b|)
  {
    |set m | p <= m < p + n && BitField(b, m, 1) == 1|
  }

  lemma BinomialExact(b: seq<int>, eta: nat, i: nat)
    requires Bytes(b, |b|) && |b| >= 64 * eta && i < DEGREE
    ensures Binomial(b, eta)[i] == BitsSet(b, 2 * eta * i, eta) - BitsSet(b, 2 * eta * i + eta, eta)
  {
    hide Ones, BitsSet;
    RunInRange(b, eta, i);
    assert 2 * i * eta == 2 * eta * i;
    OnesCount(b, 2 * eta * i, eta);
    OnesCount(b, 2 * eta * i + eta, eta);
  }

  /** cbd reads 64 eta bytes. */
  lemma BinomialPrefix(b: seq<int>, eta: nat)
    requires Bytes(b, |b|) && |b| >= 64 * eta
    ensures Bytes(b[..64 * eta], 64 * eta) && Binomial(b, eta) == Binomial(b[..64 * eta], eta)
  {
    hide Ones;
    var c := b[..64 * eta];
    forall i: nat | i < DEGREE ensures BinomialAt(b, eta, i) == BinomialAt(c, eta, i) {
      RunInRange(c, eta, i);
      OnesPrefix(b, c, 2 * i * eta, eta);
      OnesPrefix(b, c, 2 * i * eta + eta, eta);
    }
  }

  lemma {:induction false} OnesPrefix(b: seq<int>, c: seq<int>, p: nat, n: nat)
    requires Bytes(b, |b|) && Bytes(c, |c|) && c <= b && p + n <= 8 * |c|
    ensures Ones(b, p, n) == Ones(c, p, n)
  {
    hide Low, Shr;
    if n > 0 {
      OnesPrefix(b, c, p, n - 1);
    }
  }

  /** Ones counts the bit fields that are 1. */
  lemma {:induction false} OnesCount(b: seq<int>, p: nat, n: nat)
    requires Bytes(b, |b|) && p + n <= 8 * |b|
    ensures Ones(b, p, n) == BitsSet(b, p, n)
  {
    hide GetBit, BitField;
    var all := set m | p <= m < p + n && BitField(b, m, 1) == 1;
    if n == 0 {
      assert all == {};
    } else {
      var less := set m | p <= m < p + n - 1 && BitField(b, m, 1) == 1;
      OnesCount(b, p, n - 1);
      GetBitIsField(b, p + n - 1);
      assert all == less + (if GetBit(b, p + n - 1) == 1 then {p + n - 1} else {});
    }
  }

  lemma GetBitIsField(b: seq<int>, n: nat)
    requires Bytes(b, |b|) && n / 8 < |b|
    ensures GetBit(b, n) == BitField(b, n, 1)
  {
    hide Low, Shr, BitField;
    BitInByte(b, n);
  }

  /** Coefficient i counts the ones of bits 2 eta i .. 2 eta i + eta against those of the eta bits after them. */
  method Cbd(b: seq<int>, eta: nat) returns (f: seq<int>)
    requires Bytes(b, |b|) && |b| >= 64 * eta
    ensures f == Binomial(b, eta)
    ensures |f| == DEGREE && forall i: nat :: i < DEGREE ==>
      f[i] == BitsSet(b, 2 * eta * i, eta) - BitsSet(b, 2 * eta * i + eta, eta)
  {
    hide GetBit, BitsSet, Ones;
    f := [];
    for i := 0 to DEGREE
      invariant |f| == i && forall k :: 0 <= k < i ==> f[k] == BinomialAt(b, eta, k)
    {
      var v := CbdAt(b, eta, i);
      f := f + [v];
    }
    forall i: nat | i < DEGREE ensures f[i] == BitsSet(b, 2 * eta * i, eta) - BitsSet(b, 2 * eta * i + eta, eta) {
      BinomialExact(b, eta, i);
    }
  }

  method CbdAt(b: seq<int>, eta: nat, i: nat) returns (v: int)
    requires Bytes(b, |b|) && |b| >= 64 * eta && i < DEGREE
    ensures v == BinomialAt(b, eta, i)
  {
    hide GetBit;
    RunInRange(b, eta, i);
    var x, y := 0, 0;
    var p := 2 * i * eta;
    for j := 0 to eta
      invariant x == Ones(b, p, j) && y == Ones(b, p + eta, j)
    {
      x := x + GetBit(b, p + j);
      y := y + GetBit(b, p + eta + j);
    }
    v := x - y;
  }

  // ----- expandaij -----

  /** The 12-bit candidates: two from every three bytes. */
  function Candidate(buff: seq<int>, k: nat): (d: int)
    requires Bytes(buff, 3 * DEGREE) && k < 2 * DEGREE
    ensures 0 <= d < 4096
  {
    var m := 3 * (k / 2);
    if k % 2 == 0 then buff[m] + 256 * (buff[m + 1] % 16) else buff[m + 1] / 16 + 16 * buff[m + 2]
  }

  function Candidates(buff: seq<int>): (c: seq<int>)
    requires Bytes(buff, 3 * DEGREE)
    ensures |c| == 2 * DEGREE && forall k :: 0 <= k < |c| ==> 0 <= c[k] < 4096
  {
    seq(2 * DEGREE, k requires 0 <= k < 2 * DEGREE => Candidate(buff, k))
  }

  /** An element of the matrix, given by its transform. */
  function UniformPoly(buff: seq<int>): (a: Option<seq<int>>)
    requires Bytes(buff, 3 * DEGREE)
    ensures a.Some? ==> Vector(a.value, 1, 0, Q - 1)
  {
    BelowAtLeast(Candidates(buff), Q, 0);
    FirstBelow(Candidates(buff), Q)
  }

  /** The candidates are the consecutive 12-bit fields of the buffer. */
  lemma CandidatesAreFields(buff: seq<int>)
    requires Bytes(buff, 3 * DEGREE)
    ensures Candidates(buff) == Words(buff, 12, 2 * DEGREE)
  {
    hide BitField;
    forall k: nat | k < 2 * DEGREE ensures Candidates(buff)[k] == BitField(buff, 12 * k, 12) {
      var j := k / 2;
      CandidateFields(buff, j);
      CandidatePair(buff, j);
      assert k == 2 * j || k == 2 * j + 1;
    }
  }

  lemma CandidateFields(buff: seq<int>, j: nat)
    requires Bytes(buff, 3 * DEGREE) && j < DEGREE
    ensures BitField(buff, 12 * (2 * j), 12) == buff[3 * j] + 256 * (buff[3 * j + 1] % 16)
    ensures BitField(buff, 12 * (2 * j + 1), 12) == buff[3 * j + 1] / 16 + 16 * buff[3 * j + 2]
  {
    hide Pow2, Val, Shr, Low;
    Powers();
    var rest := ThreeBytes(buff, 3 * j);
    var v, b1, b2 := Val(8, buff), buff[3 * j + 1], buff[3 * j + 2];
    var high := b1 / 16 + 16 * (b2 + 256 * rest);
    ShrUnique(Shr(v, 24 * j), 12, high, buff[3 * j] + 256 * (b1 % 16));
    ShrShr(v, 24 * j, 12);
    ShrUnique(high, 12, rest, b1 / 16 + 16 * b2);
  }

  /** The rejection loop of expandaij, two candidates a round. */
  method ExpandAij(buff: seq<int>) returns (a: Option<seq<int>>)
    requires Bytes(buff, 3 * DEGREE)
    ensures a == UniformPoly(buff)
    ensures a.None? <==> CountBelow(Words(buff, 12, 2 * DEGREE), Q, 2 * DEGREE) < DEGREE
    ensures a.Some? ==> forall j: nat :: j < DEGREE ==> IsNth(Words(buff, 12, 2 * DEGREE), Q, j, a.value[j])
  {
    hide Below, Taken, Candidates, FirstBelow, Words, IsNth, CountBelow;
    ghost var c := Candidates(buff);
    var got: seq<int> := [];
    NoneTaken(c, Q);
    ghost var j := 0;
    var m := 0;
    while |got| < DEGREE && m < 3 * DEGREE
      invariant 0 <= j <= DEGREE && m == 3 * j && Taken(got, c[..2 * j], Q) && |got| <= DEGREE
      decreases 3 * DEGREE - m
    {
      var d1 := buff[m] + 256 * (buff[m + 1] % 16);
      var d2 := buff[m + 1] / 16 + 16 * buff[m + 2];
      CandidatePair(buff, j);
      TakenStep(got, c, 2 * j, Q);
      if d1 < Q {
        got := got + [d1];
      }
      TakenStep(got, c, 2 * j + 1, Q);
      if d2 < Q && |got| < DEGREE {
        got := got + [d2];
      }
      j := j + 1;
      m := m + 3;
    }
    AllTaken(got, c, 2 * j, Q);
    CandidatesAreFields(buff);
    FirstBelowExact(c, Q);
    a := if |got| < DEGREE then None else Some(got);
  }

  /** Three bytes hold two candidates. */
  lemma CandidatePair(buff: seq<int>, j: nat)
    requires Bytes(buff, 3 * DEGREE) && j < DEGREE
    ensures Candidates(buff)[2 * j] == buff[3 * j] + 256 * (buff[3 * j + 1] % 16)
    ensures Candidates(buff)[2 * j + 1] == buff[3 * j + 1] / 16 + 16 * buff[3 * j + 2]
  {
    assert (2 * j) / 2 == j && (2 * j + 1) / 2 == j;
  }
}
