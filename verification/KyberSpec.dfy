/**
 Keys, ciphertexts and shared secrets of kyber.rs over the ring Z_Q[x]/(x^256 + 1), for arbitrary hash functions:
 what the cpa_* and cca_* functions compute.
 */
module KyberSpec {
  import opened Wrappers
  import opened BitStream
  import opened QuotientRing
  import opened TransformTree
  import opened PolyVector
  import opened KyberTables
  import opened KyberNtt
  import opened KyberPoly
  import opened KyberCodec
  import opened KyberSampling
  import opened RejectionSampling

  // ----- sizes -----

  function VectorSize(params: Params): (n: nat) { params.ck * (32 * 12) }

  function PkSize(params: Params): (n: nat) { VectorSize(params) + 32 }

  function USize(params: Params): (n: nat) { params.ck * (32 * params.du) }

  function CtSize(params: Params): (n: nat) { USize(params) + 32 * params.dv }

  function SkSize(params: Params): (n: nat) { VectorSize(params) + PkSize(params) + 64 }

  // ----- the matrix -----

  /** expandaij(i, j) absorbs rho, then j, then i. */
  function MatrixElement(o: Oracle, rho: seq<int>, i: nat, j: nat): (a: Option<seq<int>>)
    requires IsOracle(o)
    ensures a.Some? ==> Vector(a.value, 1, 0, Q - 1)
  {
    UniformPoly(o.shake128(rho + [j % 256, i % 256], 3 * DEGREE))
  }

  ghost predicate MatrixExpands(o: Oracle, rho: seq<int>, ck: nat)
    requires IsOracle(o)
  {
    forall i: nat, j: nat :: i < ck && j < ck ==> MatrixElement(o, rho, i, j).Some?
  }

  /** Element (i, j) of A: the polynomial whose transform is sampled. */
  function MatrixPoly(o: Oracle, rho: seq<int>, i: nat, j: nat): (a: Poly)
    requires IsOracle(o)
    ensures |a| == DEGREE
  {
    match MatrixElement(o, rho, i, j)
    case Some(x) => InverseTransform(x)
    case None => Zero(DEGREE)
  }

  /** Element (i, j) of A, or of its transpose. */
  function Element(o: Oracle, rho: seq<int>, transposed: bool, i: nat, j: nat): (a: Poly)
    requires IsOracle(o)
    ensures |a| == DEGREE
  {
    if transposed then MatrixPoly(o, rho, j, i) else MatrixPoly(o, rho, i, j)
  }

  /** Row i of A, or of its transpose, times the first n polynomials of v. */
  function RowDot(o: Oracle, rho: seq<int>, transposed: bool, i: nat, v: seq<int>, n: nat): (p: Poly)
    requires IsOracle(o) && n * DEGREE <= |v|
    ensures |p| == DEGREE
  {
    if n == 0 then Zero(DEGREE)
    else Add(RowDot(o, rho, transposed, i, v, n - 1), MulMod(-1, Element(o, rho, transposed, i, n - 1), Row(v, n - 1)))
  }

  /** The product of two vectors. */
  function Dot(a: seq<int>, v: seq<int>, n: nat): (p: Poly)
    requires n * DEGREE <= |a| && n * DEGREE <= |v|
    ensures |p| == DEGREE
  {
    if n == 0 then Zero(DEGREE) else Add(Dot(a, v, n - 1), MulMod(-1, Row(a, n - 1), Row(v, n - 1)))
  }

  /** The polynomials whose transforms are the first n rows of h. */
  function Untransformed(h: seq<int>, n: nat): (a: seq<int>)
    requires n * DEGREE <= |h|
    ensures |a| == n * DEGREE
  {
    hide InverseTransform;
    if n == 0 then [] else Untransformed(h, n - 1) + InverseTransform(Row(h, n - 1))
  }

  /** Every coefficient modulo Q. */
  function Reduced(p: Poly): (r: Poly)
    ensures |r| == |p| && AtLeast(r, 0 - Q)
  {
    seq(|p|, i requires 0 <= i < |p| => p[i] % Q)
  }

  // ----- keys -----

  function KeyNoise(o: Oracle, params: Params, sigma: seq<int>, k: nat): (p: Poly)
    requires IsOracle(o)
    ensures Vector(p, 1, 0 - params.eta1, params.eta1)
  {
    Binomial(o.shake256(sigma + [k], 64 * params.eta1), params.eta1)
  }

  /** Key noise polynomials from .. from + n: s, then e. */
  function KeyNoiseVector(o: Oracle, params: Params, sigma: seq<int>, from: nat, n: nat): (v: seq<int>)
    requires IsOracle(o)
    ensures Vector(v, n, 0 - params.eta1, params.eta1)
  {
    if n == 0 then [] else KeyNoiseVector(o, params, sigma, from, n - 1) + KeyNoise(o, params, sigma, from + n - 1)
  }

  /** The rows of h are canonical residues that represent the rows of a vector. */
  ghost predicate Carries(h: seq<int>, v: seq<int>, n: nat) {
    && Vector(h, n, 0, Q - 1) && |v| == n * DEGREE
    && forall i: nat :: i < n ==> Represents(Row(h, i), Row(v, i))
  }

  /** t = A s + e, row after row. */
  function PublicVector(o: Oracle, params: Params, rho: seq<int>, s: seq<int>, e: seq<int>, n: nat): (t: seq<int>)
    requires IsOracle(o) && |s| == |e| == params.ck * DEGREE && n <= params.ck
    ensures |t| == n * DEGREE
  {
    if n == 0 then []
    else PublicVector(o, params, rho, s, e, n - 1) + Add(RowDot(o, rho, false, n - 1, s, params.ck), Row(e, n - 1))
  }

  /** sk and pk belong together: sk carries s, pk carries t = A s + e and the seed of A. */
  ghost predicate IsKeyPair(o: Oracle, params: Params, sk: seq<int>, pk: seq<int>, s: seq<int>, e: seq<int>)
    requires IsOracle(o) && IsParams(params)
  {
    && Bytes(sk, VectorSize(params)) && Bytes(pk, PkSize(params)) && |s| == |e| == params.ck * DEGREE
    && MatrixExpands(o, PkRho(params, pk), params.ck)
    && Carries(Decoded(sk, 12, params.ck), s, params.ck)
    && Carries(Decoded(pk, 12, params.ck), PublicVector(o, params, PkRho(params, pk), s, e, params.ck), params.ck)
  }

  function PkRho(params: Params, pk: seq<int>): (rho: seq<int>)
    requires |pk| == PkSize(params)
    ensures |rho| == 32
  {
    pk[VectorSize(params)..]
  }

  // ----- encryption -----

  /** sh.shake writes a prefix of the buffer and leaves the rest. */
  function Fill(buff: seq<int>, out: seq<int>): (r: seq<int>)
    requires |out| <= |buff|
    ensures |r| == |buff|
  {
    out + buff[|out|..]
  }

  /** The noise buffer of cpa_base_encrypt after k fills: ck of 64 eta1 bytes, then of 64 eta2. */
  function NoiseBuffer(o: Oracle, params: Params, coins: seq<int>, k: nat): (b: seq<int>)
    requires IsOracle(o) && IsParams(params)
    ensures Bytes(b, 256)
  {
    if k == 0 then Zero(256)
    else Fill(NoiseBuffer(o, params, coins, k - 1),
              o.shake256(coins + [k - 1], 64 * if k - 1 < params.ck then params.eta1 else params.eta2))
  }

  /** Noise polynomial k: always cut with eta1, as the source does. */
  function Noise(o: Oracle, params: Params, coins: seq<int>, k: nat): (p: Poly)
    requires IsOracle(o) && IsParams(params)
    ensures Vector(p, 1, 0 - params.eta1, params.eta1)
  {
    Binomial(NoiseBuffer(o, params, coins, k + 1), params.eta1)
  }

  /** Noise polynomials from .. from + n. */
  function NoiseVector(o: Oracle, params: Params, coins: seq<int>, from: nat, n: nat): (v: seq<int>)
    requires IsOracle(o) && IsParams(params)
    ensures Vector(v, n, 0 - params.eta1, params.eta1)
  {
    if n == 0 then [] else NoiseVector(o, params, coins, from, n - 1) + Noise(o, params, coins, from + n - 1)
  }

  /** Bits of noise that go into polynomial k of an encryption, per coefficient and side. */
  function NoiseWidth(params: Params, k: nat): (eta: nat) { if k < params.ck then params.eta1 else params.eta2 }

  lemma {:induction false} NoiseBytes(o: Oracle, params: Params, coins: seq<int>, k: nat, n: nat)
    requires IsOracle(o) && IsParams(params) && n < 64 * params.eta1
    ensures NoiseBuffer(o, params, coins, k + 1)[n] ==
      if n < 64 * NoiseWidth(params, k) then o.shake256(coins + [k], 64 * NoiseWidth(params, k))[n]
      else o.shake256(coins + [params.ck - 1], 64 * params.eta1)[n]
  {
    hide IsOracle;
    LengthOf(o, coins + [k], 64 * NoiseWidth(params, k));
    if n >= 64 * NoiseWidth(params, k) && k > 0 {
      NoiseBytes(o, params, coins, k - 1, n);
    }
  }

  lemma LengthOf(o: Oracle, input: seq<int>, n: nat)
    requires IsOracle(o)
    ensures Bytes(o.shake256(input, n), n)
  {
  }

  /**
   Noise polynomial k of an encryption, bit by bit: cut with eta1 from the output for k, except that where that output is shorter
   than 64 eta1 bytes (e1 and e2 at level 512) the bytes after it are those left by the last fill of q.
   */
  lemma NoiseExact(o: Oracle, params: Params, coins: seq<int>, k: nat, i: nat)
    requires IsOracle(o) && IsParams(params) && i < DEGREE
    ensures var own := o.shake256(coins + [k], 64 * NoiseWidth(params, k));
      var last := o.shake256(coins + [params.ck - 1], 64 * params.eta1);
      var b := own + last[|own|..];
      var eta := params.eta1;
      Bytes(b, 64 * eta) && Noise(o, params, coins, k)[i] == BitsSet(b, 2 * eta * i, eta) - BitsSet(b, 2 * eta * i + eta, eta)
  {
    hide IsOracle, BitsSet, NoiseBuffer, Binomial;
    LengthOf(o, coins + [k], 64 * NoiseWidth(params, k));
    LengthOf(o, coins + [params.ck - 1], 64 * params.eta1);
    var own := o.shake256(coins + [k], 64 * NoiseWidth(params, k));
    var last := o.shake256(coins + [params.ck - 1], 64 * params.eta1);
    var b, whole := own + last[|own|..], NoiseBuffer(o, params, coins, k + 1);
    forall n: nat | n < 64 * params.eta1 ensures whole[n] == b[n] {
      NoiseBytes(o, params, coins, k, n);
    }
    assert whole[..64 * params.eta1] == b;
    BinomialPrefix(whole, params.eta1);
    BinomialExact(b, params.eta1, i);
  }

  /** Row i of s or e comes from the output for the row's number. */
  lemma {:induction false} KeyNoiseExact(o: Oracle, params: Params, sigma: seq<int>, from: nat, n: nat, i: nat, j: nat)
    requires IsOracle(o) && i < n && j < DEGREE
    ensures var b := o.shake256(sigma + [from + i], 64 * params.eta1);
      var eta := params.eta1;
      Bytes(b, 64 * eta)
      && Row(KeyNoiseVector(o, params, sigma, from, n), i)[j] == BitsSet(b, 2 * eta * j, eta) - BitsSet(b, 2 * eta * j + eta, eta)
  {
    hide IsOracle, BitsSet, Binomial;
    LengthOf(o, sigma + [from + i], 64 * params.eta1);
    RowsAppend(KeyNoiseVector(o, params, sigma, from, n - 1), KeyNoise(o, params, sigma, from + n - 1), n - 1);
    if i < n - 1 {
      KeyNoiseExact(o, params, sigma, from, n - 1, i, j);
    } else {
      BinomialExact(o.shake256(sigma + [from + i], 64 * params.eta1), params.eta1, j);
    }
  }

  /** Element (i, j) of the matrix, given by its transform: the 12-bit words below q of the output for rho, j, i. */
  lemma MatrixExact(o: Oracle, rho: seq<int>, i: nat, j: nat)
    requires IsOracle(o)
    ensures var b := o.shake128(rho + [j % 256, i % 256], 768);
      var a := MatrixElement(o, rho, i, j);
      && Bytes(b, 768)
      && (a.None? <==> CountBelow(Words(b, 12, 512), Q, 512) < DEGREE)
      && (a.Some? ==> forall n: nat :: n < DEGREE ==> IsNth(Words(b, 12, 512), Q, n, a.value[n]))
  {
    hide Words, CountBelow, IsNth, FirstBelow;
    var b := o.shake128(rho + [j % 256, i % 256], 768);
    CandidatesAreFields(b);
    FirstBelowExact(Candidates(b), Q);
  }

  /** The randomness of one encryption. */
  datatype Ephemeral = Ephemeral(q: seq<int>, e1: seq<int>, e2: Poly)

  predicate IsEphemeral(params: Params, r: Ephemeral) {
    |r.q| == |r.e1| == params.ck * DEGREE && |r.e2| == DEGREE
  }

  function EphemeralOf(o: Oracle, params: Params, coins: seq<int>): (r: Ephemeral)
    requires IsOracle(o) && IsParams(params)
    ensures IsEphemeral(params, r)
  {
    Ephemeral(NoiseVector(o, params, coins, 0, params.ck), NoiseVector(o, params, coins, params.ck, params.ck),
              Noise(o, params, coins, 2 * params.ck))
  }

  /** Row i of u = A^T q + e1. */
  function URow(o: Oracle, params: Params, rho: seq<int>, r: Ephemeral, i: nat): (u: Poly)
    requires IsOracle(o) && IsEphemeral(params, r) && i < params.ck
    ensures |u| == DEGREE
  {
    Add(Row(r.e1, i), RowDot(o, rho, true, i, r.q, params.ck))
  }

  /** The message, one bit per coefficient. */
  function MessageBits(m: seq<int>): (b: seq<int>)
    requires Bytes(m, 32)
    ensures |b| == DEGREE && forall i :: 0 <= i < DEGREE ==> 0 <= b[i] <= 1
  {
    Powers();
    Decoded(m, 1, 1)
  }

  /** v = t q + e2 + the message spread over the coefficients. */
  function VPoly(params: Params, pkHat: seq<int>, r: Ephemeral, m: seq<int>): (v: Poly)
    requires |pkHat| == params.ck * DEGREE && IsEphemeral(params, r) && Bytes(m, 32)
    ensures |v| == DEGREE
  {
    Add(Add(Dot(Untransformed(pkHat, params.ck), r.q, params.ck), r.e2), Decompressed(1, MessageBits(m)))
  }

  function CompressedPoly(d: nat, p: Poly): (y: seq<int>)
    requires IsWidth(d)
    ensures |y| == |p|
  {
    Compressed(d, Reduced(p))
  }

  /** The first n rows of u, compressed. */
  function CompressedU(o: Oracle, params: Params, rho: seq<int>, r: Ephemeral, n: nat): (y: seq<int>)
    requires IsOracle(o) && IsParams(params) && IsEphemeral(params, r) && n <= params.ck
    ensures |y| == n * DEGREE
  {
    if n == 0 then [] else CompressedU(o, params, rho, r, n - 1) + CompressedPoly(params.du, URow(o, params, rho, r, n - 1))
  }

  lemma CompressedFits(d: nat, p: Poly)
    requires IsWidth(d)
    ensures Fits(d, CompressedPoly(d, p)) && Normed(CompressedPoly(d, p)) == CompressedPoly(d, p)
  {
    hide Compress, Pow2;
    forall i | 0 <= i < |p| ensures 0 <= CompressedPoly(d, p)[i] < Pow2(d) {
      var k := CompressSpec(d, Reduced(p)[i]);
    }
  }

  lemma {:induction false} CompressedUFits(o: Oracle, params: Params, rho: seq<int>, r: Ephemeral, n: nat)
    requires IsOracle(o) && IsParams(params) && IsEphemeral(params, r) && n <= params.ck
    ensures Fits(params.du, CompressedU(o, params, rho, r, n))
    ensures Normed(CompressedU(o, params, rho, r, n)) == CompressedU(o, params, rho, r, n)
  {
    hide Pow2, CompressedPoly, IsOracle, URow;
    if n > 0 {
      CompressedUFits(o, params, rho, r, n - 1);
      CompressedFits(params.du, URow(o, params, rho, r, n - 1));
    }
  }

  lemma BytesConcat(a: seq<int>, m: nat, b: seq<int>, n: nat)
    requires Bytes(a, m) && Bytes(b, n)
    ensures Bytes(a + b, m + n)
  {
  }

  lemma BytesSlice(a: seq<int>, lo: nat, hi: nat)
    requires Bytes(a, |a|) && lo <= hi <= |a|
    ensures Bytes(a[lo..hi], hi - lo)
  {
  }

  /** encode of u and v, one after the other. */
  function CtBytes(params: Params, u: seq<int>, v: seq<int>): (ct: seq<int>)
    requires Encodable(u, params.ck, params.du) && Encodable(v, 1, params.dv)
    ensures Bytes(ct, CtSize(params))
  {
    hide Encodable, Encoded;
    BytesConcat(Encoded(u, params.ck, params.du), USize(params), Encoded(v, 1, params.dv), 32 * params.dv);
    Encoded(u, params.ck, params.du) + Encoded(v, 1, params.dv)
  }

  /** The ciphertext of message m under pk for the randomness r. */
  function Ciphertext(o: Oracle, params: Params, pk: seq<int>, r: Ephemeral, m: seq<int>): (ct: seq<int>)
    requires IsOracle(o) && IsParams(params) && Bytes(pk, PkSize(params)) && IsEphemeral(params, r) && Bytes(m, 32)
    ensures Bytes(ct, CtSize(params))
  {
    hide CompressedU, CompressedPoly, VPoly, Pow2, Normed, IsOracle, Decoded, PkRho, Fits, CtBytes;
    CompressedUFits(o, params, PkRho(params, pk), r, params.ck);
    CompressedFits(params.dv, VPoly(params, Decoded(pk, 12, params.ck), r, m));
    CtBytes(params, CompressedU(o, params, PkRho(params, pk), r, params.ck),
            CompressedPoly(params.dv, VPoly(params, Decoded(pk, 12, params.ck), r, m)))
  }

  /** cpa_encrypt; None where the matrix sampler runs out of bytes and the source panics. */
  ghost function Encryption(o: Oracle, params: Params, coins: seq<int>, pk: seq<int>, m: seq<int>): (ct: Option<seq<int>>)
    requires IsOracle(o) && IsParams(params) && |coins| >= 32 && Bytes(pk, PkSize(params)) && Bytes(m, 32)
    ensures ct.Some? ==> Bytes(ct.value, CtSize(params))
  {
    if MatrixExpands(o, PkRho(params, pk), params.ck)
    then Some(Ciphertext(o, params, pk, EphemeralOf(o, params, coins[..32]), m)) else None
  }

  // ----- decryption -----

  function CtU(params: Params, ct: seq<int>): (u: seq<int>)
    requires IsParams(params) && |ct| >= CtSize(params) && Bytes(ct, |ct|)
    ensures |u| == params.ck * DEGREE && Fits(params.du, u)
  {
    Decoded(ct, params.du, params.ck)
  }

  function CtV(params: Params, ct: seq<int>): (v: seq<int>)
    requires IsParams(params) && |ct| >= CtSize(params) && Bytes(ct, |ct|)
    ensures |v| == DEGREE && Fits(params.dv, v)
  {
    Decoded(ct[USize(params)..], params.dv, 1)
  }

  /** v' - s u', with u' and v' decompressed. */
  function Remainder(params: Params, skHat: seq<int>, u: seq<int>, v: seq<int>): (p: Poly)
    requires IsParams(params) && |skHat| == |u| == params.ck * DEGREE && |v| == DEGREE
    ensures |p| == DEGREE
  {
    Sub(Decompressed(params.dv, v), Dot(Untransformed(skHat, params.ck), Decompressed(params.du, u), params.ck))
  }

  /** cpa_decrypt. */
  function Decryption(params: Params, sk: seq<int>, ct: seq<int>): (m: seq<int>)
    requires IsParams(params) && |sk| >= VectorSize(params) && Bytes(sk, |sk|) && |ct| >= CtSize(params) && Bytes(ct, |ct|)
    ensures Bytes(m, 32)
  {
    var p := Remainder(params, Decoded(sk, 12, params.ck), CtU(params, ct), CtV(params, ct));
    CompressedFits(1, p);
    Encoded(CompressedPoly(1, p), 1, 1)
  }

  // ----- the key encapsulation -----

  /** The shared secret derived from a pre-key and the hash of a ciphertext. */
  function SharedSecret(o: Oracle, prekey: seq<int>, ct: seq<int>): (ss: seq<int>)
    requires IsOracle(o)
    ensures Bytes(ss, 32)
  {
    o.shake256(prekey + o.hash256(ct), 32)
  }

  /** hash512 of the hashed message and the hashed public key: pre-key and coins. */
  function PreKey(o: Oracle, m: seq<int>, h: seq<int>): (g: seq<int>)
    requires IsOracle(o)
    ensures Bytes(g, 64)
  {
    o.hash512(m + h)
  }

  /** The second half of the hash: the coins of the encryption. */
  function Coins(g: seq<int>): (r: seq<int>)
    requires |g| == 64
    ensures |r| == 32 && r[..32] == r
  {
    g[32..]
  }

  /** The secret key of cca_keypair: the CPA key, the public key, its hash, and the rejection secret. */
  datatype SecretKey = SecretKey(cpa: seq<int>, pk: seq<int>, h: seq<int>, z: seq<int>)

  function SkParts(params: Params, sk: seq<int>): (k: SecretKey)
    requires Bytes(sk, SkSize(params))
    ensures Bytes(k.cpa, VectorSize(params)) && Bytes(k.pk, PkSize(params)) && Bytes(k.h, 32) && Bytes(k.z, 32)
  {
    hide Bytes;
    var n, p := VectorSize(params), PkSize(params);
    BytesSlice(sk, 0, n);
    BytesSlice(sk, n, n + p);
    BytesSlice(sk, n + p, n + p + 32);
    BytesSlice(sk, n + p + 32, n + p + 64);
    SecretKey(sk[0..n], sk[n..n + p], sk[n + p..n + p + 32], sk[n + p + 32..n + p + 64])
  }

  /** cca_decrypt: the pre-key if re-encryption gives the ciphertext, the secret z otherwise. */
  ghost function Decapsulation(o: Oracle, params: Params, sk: seq<int>, ct: seq<int>): (ss: Option<seq<int>>)
    requires IsOracle(o) && IsParams(params) && Bytes(sk, SkSize(params)) && |ct| >= CtSize(params) && Bytes(ct, |ct|)
  {
    hide Decryption, Encryption, PreKey, SharedSecret, IsOracle, SkParts, Coins, CtSize;
    var k := SkParts(params, sk);
    var m := Decryption(params, k.cpa, ct);
    var g := PreKey(o, m, k.h);
    match Encryption(o, params, Coins(g), k.pk, m)
    case None => None
    case Some(c) => Some(SharedSecret(o, if c == ct[..CtSize(params)] then g[..32] else k.z, ct))
  }
}
