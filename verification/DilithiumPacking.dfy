/** Byte layouts of the keys and signatures of dilithium.rs. */
module DilithiumPacking {
  import opened BitStream
  import opened TransformTree
  import opened PolyVector
  import opened DilithiumTables
  import opened DilithiumRounding

  const TD: nat := 10
  const D: nat := 13

  /** mx - s[i] for every element: the form in which signed values are packed. */
  function Flipped(mx: int, s: seq<int>): (t: seq<int>)
    ensures |t| == |s|
  {
    seq(|s|, i requires 0 <= i < |s| => mx - s[i])
  }

  lemma FlippedTwice(mx: int, s: seq<int>)
    ensures Flipped(mx, Flipped(mx, s)) == s
  {
  }

  // ----- public key -----

  predicate PkParts(params: Params, rho: seq<int>, t1: seq<int>) {
    Bytes(rho, 32) && Vector(t1, params.ck, 0, 1023)
  }

  function PkSize(params: Params): (n: nat) { 32 + params.ck * 320 }

  function PkBytes(params: Params, rho: seq<int>, t1: seq<int>): (pk: seq<int>)
    requires PkParts(params, rho, t1)
    ensures Bytes(pk, PkSize(params))
  {
    Powers();
    rho + Recoded(TD, 8, params.ck * 320, t1)
  }

  method PackPk(params: Params, rho: seq<int>, t1: seq<int>) returns (pk: seq<int>)
    requires PkParts(params, rho, t1)
    ensures pk == PkBytes(params, rho, t1)
  {
    hide Recoded, Bits, Pow2;
    Powers();
    ByteCount(TD, params.ck);
    var packed, ptr := Recode(TD, 8, params.ck * 320, t1);
    pk := rho + packed;
  }

  function PkRho(pk: seq<int>): (rho: seq<int>) requires |pk| >= 32 { pk[..32] }

  function PkT1(params: Params, pk: seq<int>): (t1: seq<int>)
    requires Bytes(pk, PkSize(params))
    ensures Vector(t1, params.ck, 0, 1023)
  {
    Powers();
    Recoded(8, TD, params.ck * DEGREE, pk[32..])
  }

  method UnpackPk(params: Params, pk: seq<int>) returns (rho: seq<int>, t1: seq<int>)
    requires Bytes(pk, PkSize(params))
    ensures rho == PkRho(pk) && t1 == PkT1(params, pk)
  {
    hide Recoded, Bits, Pow2;
    Powers();
    ByteCount(TD, params.ck);
    rho := pk[..32];
    var ptr;
    t1, ptr := Recode(8, TD, params.ck * DEGREE, pk[32..]);
  }

  /** The layout of a public key: 32 bytes of rho, then ten bits for every coefficient of t1. */
  lemma PkLayout(params: Params, pk: seq<int>, k: nat)
    requires IsParams(params) && Bytes(pk, PkSize(params)) && k < params.ck * DEGREE
    ensures PkRho(pk) == pk[..32] && PkT1(params, pk)[k] == BitField(pk, 256 + 10 * k, 10)
  {
    hide Recoded, Pow2, BitField;
    Powers();
    RecodedField(pk[32..], TD, params.ck * DEGREE, k);
    assert pk[32..] == pk[32..|pk|];
    FieldInPart(pk, 32, |pk|, 10 * k, 10);
  }

  /** unpack_pk inverts pack_pk. */
  lemma PkRoundTrip(params: Params, rho: seq<int>, t1: seq<int>)
    requires PkParts(params, rho, t1)
    ensures PkRho(PkBytes(params, rho, t1)) == rho && PkT1(params, PkBytes(params, rho, t1)) == t1
  {
    hide Recoded, Bits, Pow2;
    Powers();
    ByteCount(TD, params.ck);
    RecodeRoundTrip(TD, 8, params.ck * 320, t1);
    assert PkBytes(params, rho, t1)[32..] == Recoded(TD, 8, params.ck * 320, t1);
  }

  // ----- secret key -----

  datatype SecretKey = SecretKey(rho: seq<int>, bk: seq<int>, tr: seq<int>, s1: seq<int>, s2: seq<int>, t0: seq<int>)

  predicate SkParts(params: Params, sk: SecretKey) {
    && Bytes(sk.rho, 32) && Bytes(sk.bk, 32) && Bytes(sk.tr, 32)
    && Vector(sk.s1, params.el, 0 - params.eta, params.eta) && Vector(sk.s2, params.ck, 0 - params.eta, params.eta)
    && Vector(sk.t0, params.ck, -4095, 4096)
  }

  /** The shape of any unpacked secret key, whatever its bytes. */
  predicate SkShape(params: Params, sk: SecretKey) {
    && Bytes(sk.rho, 32) && Bytes(sk.bk, 32) && Bytes(sk.tr, 32)
    && Vector(sk.s1, params.el, -16, 16) && Vector(sk.s2, params.ck, -16, 16) && Vector(sk.t0, params.ck, -4095, 4096)
  }

  lemma PartsHaveShape(params: Params, sk: SecretKey)
    requires IsParams(params) && SkParts(params, sk)
    ensures SkShape(params, sk)
  {
  }

  lemma UnpackedShape(params: Params, b: seq<int>)
    requires IsParams(params) && Bytes(b, SkSize(params))
    ensures SkShape(params, SkOf(params, b))
  {
    hide UnpackedVector, Pow2;
    Powers();
  }

  function S1Size(params: Params): (n: nat) { params.el * (32 * params.lg2eta1) }

  function S2Size(params: Params): (n: nat) { params.ck * (32 * params.lg2eta1) }

  function T0Size(params: Params): (n: nat) { params.ck * (32 * D) }

  function SkSize(params: Params): (n: nat) { 96 + S1Size(params) + S2Size(params) + T0Size(params) }

  /** A vector of n polynomials with elements in [mx - 2^w + 1, mx], flipped by mx and packed. */
  function PackedVector(w: nat, mx: int, n: nat, s: seq<int>): (b: seq<int>)
    requires Vector(s, n, mx - Pow2(w) + 1, mx)
    ensures Bytes(b, n * (32 * w))
  {
    Powers();
    Recoded(w, 8, n * (32 * w), Flipped(mx, s))
  }

  function UnpackedVector(w: nat, mx: int, n: nat, b: seq<int>): (s: seq<int>)
    requires Bytes(b, n * (32 * w))
    ensures Vector(s, n, mx - Pow2(w) + 1, mx)
  {
    Powers();
    Flipped(mx, Recoded(8, w, n * DEGREE, b))
  }

  lemma VectorRoundTrip(w: nat, mx: int, n: nat, s: seq<int>)
    requires Vector(s, n, mx - Pow2(w) + 1, mx)
    ensures UnpackedVector(w, mx, n, PackedVector(w, mx, n, s)) == s
  {
    hide Recoded, Bits, Pow2, Flipped;
    Powers();
    FlippedFits(w, mx, n, s);
    ByteCount(w, n);
    RecodeRoundTrip(w, 8, n * (32 * w), Flipped(mx, s));
    FlippedTwice(mx, s);
  }

  lemma FlippedFits(w: nat, mx: int, n: nat, s: seq<int>)
    requires Vector(s, n, mx - Pow2(w) + 1, mx)
    ensures Fits(w, Flipped(mx, s))
  {
    hide Pow2;
  }

  method PackVector(w: nat, mx: int, n: nat, s: seq<int>) returns (b: seq<int>)
    requires w > 0 && Vector(s, n, mx - Pow2(w) + 1, mx)
    ensures b == PackedVector(w, mx, n, s)
  {
    hide Recoded, Bits, Pow2;
    Powers();
    ByteCount(w, n);
    var ptr;
    b, ptr := Recode(w, 8, n * (32 * w), Flipped(mx, s));
  }

  /** Also returns the number of bytes consumed, by which unpack_sk moves on. */
  method UnpackVector(w: nat, mx: int, n: nat, b: seq<int>) returns (s: seq<int>, ptr: nat)
    requires w > 0 && |b| >= n * (32 * w) && Bytes(b, |b|)
    ensures s == UnpackedVector(w, mx, n, b[..n * (32 * w)]) && ptr == n * (32 * w)
  {
    hide Recoded, Pow2;
    Powers();
    ByteCount(w, n);
    var t;
    t, ptr := Recode(8, w, n * DEGREE, b[..n * (32 * w)]);
    s := Flipped(mx, t);
  }

  function SkBytes(params: Params, sk: SecretKey): (b: seq<int>)
    requires IsParams(params) && SkParts(params, sk)
    ensures Bytes(b, SkSize(params))
  {
    Powers();
    sk.rho + sk.bk + sk.tr + PackedVector(params.lg2eta1, params.eta, params.el, sk.s1)
    + PackedVector(params.lg2eta1, params.eta, params.ck, sk.s2) + PackedVector(D, 4096, params.ck, sk.t0)
  }

  method PackSk(params: Params, sk: SecretKey) returns (b: seq<int>)
    requires IsParams(params) && SkParts(params, sk)
    ensures b == SkBytes(params, sk)
  {
    hide Pow2, PackedVector;
    Powers();
    b := sk.rho + sk.bk + sk.tr;
    var p1 := PackVector(params.lg2eta1, params.eta, params.el, sk.s1);
    b := b + p1;
    var p2 := PackVector(params.lg2eta1, params.eta, params.ck, sk.s2);
    b := b + p2;
    var p3 := PackVector(D, 4096, params.ck, sk.t0);
    b := b + p3;
  }

  function SkOf(params: Params, b: seq<int>): (sk: SecretKey)
    requires IsParams(params) && Bytes(b, SkSize(params))
  {
    var n1 := 96 + S1Size(params);
    var n2 := n1 + S2Size(params);
    SecretKey(b[..32], b[32..64], b[64..96],
              UnpackedVector(params.lg2eta1, params.eta, params.el, b[96..n1]),
              UnpackedVector(params.lg2eta1, params.eta, params.ck, b[n1..n2]),
              UnpackedVector(D, 4096, params.ck, b[n2..]))
  }

  method UnpackSk(params: Params, b: seq<int>) returns (sk: SecretKey)
    requires IsParams(params) && Bytes(b, SkSize(params))
    ensures sk == SkOf(params, b)
  {
    hide Pow2, UnpackedVector;
    var n1, n2 := 96 + S1Size(params), 96 + S1Size(params) + S2Size(params);
    var n := 96;
    var s1, ptr := UnpackVector(params.lg2eta1, params.eta, params.el, b[n..]);
    assert b[n..][..S1Size(params)] == b[n..n1];
    n := n + ptr;
    var s2;
    s2, ptr := UnpackVector(params.lg2eta1, params.eta, params.ck, b[n..]);
    assert b[n..][..S2Size(params)] == b[n1..n2];
    n := n + ptr;
    var t0;
    t0, ptr := UnpackVector(D, 4096, params.ck, b[n..]);
    assert b[n..][..T0Size(params)] == b[n2..];
    sk := SecretKey(b[..32], b[32..64], b[64..96], s1, s2, t0);
  }

  /** Element k of a packed vector that starts at byte lo. */
  lemma VectorLayout(w: nat, mx: int, n: nat, b: seq<int>, lo: nat, hi: nat, k: nat)
    requires Bytes(b, |b|) && lo <= hi <= |b| && hi - lo == n * (32 * w) && k < n * DEGREE && w > 0
    ensures Bytes(b[lo..hi], n * (32 * w)) && UnpackedVector(w, mx, n, b[lo..hi])[k] == mx - BitField(b, 8 * lo + w * k, w)
  {
    hide Recoded, Pow2, BitField;
    Powers();
    RecodedField(b[lo..hi], w, n * DEGREE, k);
    ByteCount(w, n);
    MulMonotone(w, k + 1, n * DEGREE);
    MulDistributes(w, k, 1);
    FieldInPart(b, lo, hi, w * k, w);
  }

  /** The layout of a secret key: rho, the secret, the key hash, then s1, s2 and t0, every element subtracted from its maximum. */
  lemma SkLayout(params: Params, b: seq<int>, k: nat)
    requires IsParams(params) && Bytes(b, SkSize(params))
    ensures var sk, w := SkOf(params, b), params.lg2eta1;
      && sk.rho == b[..32] && sk.bk == b[32..64] && sk.tr == b[64..96]
      && (k < params.el * DEGREE ==> sk.s1[k] == params.eta - BitField(b, 768 + w * k, w))
      && (k < params.ck * DEGREE ==> sk.s2[k] == params.eta - BitField(b, 768 + w * (params.el * DEGREE) + w * k, w))
      && (k < params.ck * DEGREE ==> sk.t0[k] == 4096 - BitField(b, 768 + w * ((params.el + params.ck) * DEGREE) + 13 * k, 13))
  {
    hide UnpackedVector, Pow2, BitField;
    var n1 := 96 + S1Size(params);
    var n2 := n1 + S2Size(params);
    if k < params.el * DEGREE {
      VectorLayout(params.lg2eta1, params.eta, params.el, b, 96, n1, k);
    }
    if k < params.ck * DEGREE {
      VectorLayout(params.lg2eta1, params.eta, params.ck, b, n1, n2, k);
      assert b[n2..] == b[n2..|b|];
      VectorLayout(D, 4096, params.ck, b, n2, |b|, k);
    }
  }

  /** unpack_sk inverts pack_sk. */
  lemma SkRoundTrip(params: Params, sk: SecretKey)
    requires IsParams(params) && SkParts(params, sk)
    ensures SkOf(params, SkBytes(params, sk)) == sk
  {
    hide Pow2, UnpackedVector, PackedVector;
    Powers();
    var b := SkBytes(params, sk);
    var n1 := 96 + S1Size(params);
    var n2 := n1 + S2Size(params);
    VectorRoundTrip(params.lg2eta1, params.eta, params.el, sk.s1);
    VectorRoundTrip(params.lg2eta1, params.eta, params.ck, sk.s2);
    VectorRoundTrip(D, 4096, params.ck, sk.t0);
    assert b[96..n1] == PackedVector(params.lg2eta1, params.eta, params.el, sk.s1);
    assert b[n1..n2] == PackedVector(params.lg2eta1, params.eta, params.ck, sk.s2);
    assert b[n2..] == PackedVector(D, 4096, params.ck, sk.t0);
    assert b[..32] == sk.rho && b[32..64] == sk.bk && b[64..96] == sk.tr;
  }

  // ----- signature -----

  function Gamma1(params: Params): (g: int)
    requires IsParams(params)
  {
    if params.lg == 17 then 0x2_0000 else 0x8_0000
  }

  /** gamma1 - t for the centred t of every element, as pack_sig rewrites z in place. */
  function Centring(g: int, z: seq<int>): (t: seq<int>)
    ensures |t| == |z|
  {
    seq(|z|, i requires 0 <= i < |z| => g - Centred(z[i]))
  }

  function Uncentring(g: int, t: seq<int>): (z: seq<int>)
    ensures |z| == |t|
  {
    seq(|t|, i requires 0 <= i < |t| => if g - t[i] < 0 then g - t[i] + Q else g - t[i])
  }

  predicate SigParts(params: Params, z: seq<int>, ct: seq<int>, h: seq<int>)
    requires IsParams(params)
  {
    && Bytes(ct, 32) && Bytes(h, params.omega + params.ck) && Vector(z, params.el, 0, Q - 1)
    && forall i :: 0 <= i < |z| ==> -Gamma1(params) < Centred(z[i]) < Gamma1(params)
  }

  function ZSize(params: Params): (n: nat) { params.el * (32 * (params.lg + 1)) }

  function SigSize(params: Params): (n: nat) { 32 + ZSize(params) + params.omega + params.ck }

  lemma Gamma1Bits(params: Params)
    requires IsParams(params)
    ensures Pow2(params.lg + 1) == 2 * Gamma1(params) && Pow2(8) == 256
  {
    Powers();
  }

  function SigBytes(params: Params, z: seq<int>, ct: seq<int>, h: seq<int>): (b: seq<int>)
    requires IsParams(params) && SigParts(params, z, ct, h)
    ensures Bytes(b, SigSize(params))
  {
    Gamma1Bits(params);
    ct + Recoded(params.lg + 1, 8, ZSize(params), Centring(Gamma1(params), z)) + h
  }

  method PackSig(params: Params, z: seq<int>, ct: seq<int>, h: seq<int>) returns (b: seq<int>)
    requires IsParams(params) && SigParts(params, z, ct, h)
    ensures b == SigBytes(params, z, ct, h)
  {
    hide Recoded, Bits, Pow2;
    Gamma1Bits(params);
    ByteCount(params.lg + 1, params.el);
    var t := Centring(Gamma1(params), z);
    var packed, ptr := Recode(params.lg + 1, 8, ZSize(params), t);
    b := ct + packed + h;
  }

  function SigCt(b: seq<int>): (ct: seq<int>) requires |b| >= 32 { b[..32] }

  function SigZ(params: Params, b: seq<int>): (z: seq<int>)
    requires IsParams(params) && Bytes(b, SigSize(params))
    ensures |z| == params.el * DEGREE
  {
    Gamma1Bits(params);
    Uncentring(Gamma1(params), Recoded(8, params.lg + 1, params.el * DEGREE, b[32..32 + ZSize(params)]))
  }

  function SigH(params: Params, b: seq<int>): (h: seq<int>)
    requires Bytes(b, SigSize(params))
    ensures Bytes(h, params.omega + params.ck)
  {
    b[32 + ZSize(params)..]
  }

  /** The layout of a signature: the seed, lg + 1 bits for gamma1 minus every coefficient of z, and the hint bytes. */
  lemma SigLayout(params: Params, b: seq<int>, k: nat)
    requires IsParams(params) && Bytes(b, SigSize(params)) && k < params.el * DEGREE
    ensures SigCt(b) == b[..32] && SigH(params, b) == b[|b| - params.omega - params.ck..]
    ensures SigZ(params, b)[k]
         == ((if params.lg == 17 then 0x2_0000 else 0x8_0000) - BitField(b, 256 + (params.lg + 1) * k, params.lg + 1)) % Q
  {
    hide Recoded, Pow2, BitField;
    Gamma1Bits(params);
    var hi := 32 + ZSize(params);
    RecodedField(b[32..hi], params.lg + 1, params.el * DEGREE, k);
    FieldInPart(b, 32, hi, (params.lg + 1) * k, params.lg + 1);
  }

  method UnpackSig(params: Params, b: seq<int>) returns (z: seq<int>, ct: seq<int>, h: seq<int>)
    requires IsParams(params) && Bytes(b, SigSize(params))
    ensures z == SigZ(params, b) && ct == SigCt(b) && h == SigH(params, b)
  {
    hide Recoded, Bits, Pow2;
    Gamma1Bits(params);
    ByteCount(params.lg + 1, params.el);
    ct := b[..32];
    var t, ptr := Recode(8, params.lg + 1, params.el * DEGREE, b[32..32 + ZSize(params)]);
    z := Uncentring(Gamma1(params), t);
    h := b[32 + ZSize(params)..];
  }

  lemma CentringUndone(g: int, z: seq<int>)
    requires 0 < g < Q / 2
    requires forall i :: 0 <= i < |z| ==> 0 <= z[i] < Q && -g < Centred(z[i]) < g
    ensures Uncentring(g, Centring(g, z)) == z
  {
  }

  /** unpack_sig inverts pack_sig on responses within the norm bound. */
  lemma SigRoundTrip(params: Params, z: seq<int>, ct: seq<int>, h: seq<int>)
    requires IsParams(params) && SigParts(params, z, ct, h)
    ensures SigZ(params, SigBytes(params, z, ct, h)) == z
    ensures SigCt(SigBytes(params, z, ct, h)) == ct && SigH(params, SigBytes(params, z, ct, h)) == h
  {
    hide Recoded, Bits, Pow2;
    Gamma1Bits(params);
    ByteCount(params.lg + 1, params.el);
    var t := Centring(Gamma1(params), z);
    RecodeRoundTrip(params.lg + 1, 8, ZSize(params), t);
    CentringUndone(Gamma1(params), z);
    var b := SigBytes(params, z, ct, h);
    assert b[32..32 + ZSize(params)] == Recoded(params.lg + 1, 8, ZSize(params), t);
  }
}
