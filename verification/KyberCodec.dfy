/** Compression and byte encodings of kyber.rs. */
module KyberCodec {
  import opened BitStream
  import opened Congruence
  import opened TransformTree
  import opened PolyVector
  import opened KyberTables
  import opened KyberArith

  // ----- compress and decompress -----

  /** The bit counts used: message bits, dv and du. */
  predicate IsWidth(d: nat) { d == 1 || d == 4 || d == 5 || d == 10 || d == 11 }

  /** t + ((t >> 15) & Q): negative values are raised by Q. */
  function Norm(t: int): (r: int) { if t < 0 then t + Q else t }

  lemma NormSpec(t: int)
    ensures -Q <= t ==> 0 <= Norm(t)
    ensures -Q <= t < Q ==> Norm(t) == t % Q
    ensures Cong(Norm(t), t, Q)
  {
    hide Cong;
    CongIntro(Norm(t), t, Q, if t < 0 then 1 else 0);
  }

  /** 2^d t / Q, rounded, modulo 2^d. */
  function Compress(d: nat, t: int): (y: int)
    requires IsWidth(d) && -Q <= t
  {
    Powers();
    ((Pow2(d) * Norm(t) + Q / 2) / Q) % Pow2(d)
  }

  /** Q y / 2^d, rounded. */
  function Decompress(d: nat, y: int): (t: int)
    requires IsWidth(d)
  {
    Powers();
    (Q * y + Pow2(d - 1)) / Pow2(d)
  }

  lemma Widths(d: nat)
    requires IsWidth(d)
    ensures Pow2(d) == (if d == 1 then 2 else if d == 4 then 16 else if d == 5 then 32 else if d == 10 then 1024 else 2048)
    ensures Pow2(d - 1) == (if d == 1 then 1 else if d == 4 then 8 else if d == 5 then 16 else if d == 10 then 512 else 1024)
  {
    Powers();
    assert Pow2(0) == 1;
    assert Pow2(9) == 8 * Pow2(6);
  }

  /** What compression determines: 2^d x is within Q / 2 of Q y, up to a multiple k of 2^d Q. */
  lemma CompressSpec(d: nat, t: int) returns (k: int)
    requires IsWidth(d) && -Q <= t
    ensures 0 <= Compress(d, t) < Pow2(d)
    ensures -1664 <= Pow2(d) * Norm(t) - Q * (Compress(d, t) + Pow2(d) * k) <= 1664
  {
    hide Norm, Pow2;
    var p := Pow2(d);
    var x := p * Norm(t) + 1664;
    var n := x / Q;
    DivMod(x, Q);
    k := n / p;
    DivMod(n, p);
    assert Compress(d, t) == n % p;
  }

  lemma DivMod(a: int, d: int)
    requires d > 0
    ensures a == d * (a / d) + a % d && 0 <= a % d < d
  {
  }

  /** Only one y can be that close. */
  lemma CompressUnique(p: int, x: int, y: int, k: int, y': int, k': int)
    requires p > 0 && 0 <= y < p && 0 <= y' < p
    requires -1664 <= x - Q * (y + p * k) <= 1664 && -1664 <= x - Q * (y' + p * k') <= 1664
    ensures y == y'
  {
    assert y + p * k == y' + p * k';
    MulMonotone(p, 1, k - k');
    MulMonotone(p, k - k', -1);
    MulDistributes(p, k, -k');
    assert p * -k' == -(p * k');
  }

  /** compress depends on its argument only modulo Q. */
  lemma CompressCong(d: nat, t: int, x: int)
    requires IsWidth(d) && -Q <= t && -Q <= x && Cong(t, x, Q)
    ensures Compress(d, t) == Compress(d, x)
  {
    hide Compress, Cong, Pow2;
    var k := CompressSpec(d, t);
    var k' := CompressSpec(d, x);
    NormSpec(t);
    NormSpec(x);
    CongSym(Norm(x), x, Q);
    CongTrans(Norm(t), t, x, Q);
    CongTrans(Norm(t), x, Norm(x), Q);
    var m := Quot(Norm(t), Norm(x), Q);
    var p := Pow2(d);
    Shifted(p, Norm(t), Norm(x), m);
    Regrouped(p, Compress(d, t), k, m);
    CompressUnique(p, p * Norm(x), Compress(d, t), k - m, Compress(d, x), k');
  }

  lemma Shifted(p: int, t: int, x: int, m: int)
    requires t - x == Q * m
    ensures p * t == p * x + Q * (p * m)
  {
  }

  lemma Regrouped(p: int, y: int, k: int, m: int)
    ensures Q * (y + p * k) - Q * (p * m) == Q * (y + p * (k - m))
  {
  }

  lemma DecompressSpec(d: nat, y: int)
    requires IsWidth(d) && 0 <= y < Pow2(d)
    ensures 0 <= Decompress(d, y) <= Q
    ensures 0 - Pow2(d) <= 2 * (Pow2(d) * Decompress(d, y) - Q * y) <= Pow2(d)
  {
    Widths(d);
  }

  /** compress undoes decompress. */
  lemma CompressOfDecompress(d: nat, y: int)
    requires IsWidth(d) && 0 <= y < Pow2(d)
    ensures Compress(d, Decompress(d, y)) == y
  {
    hide Compress, Decompress, Pow2;
    DecompressSpec(d, y);
    Widths(d);
    var k := CompressSpec(d, Decompress(d, y));
    CompressUnique(Pow2(d), Pow2(d) * Decompress(d, y), Compress(d, Decompress(d, y)), k, y, 0);
  }

  /** round(Q / 2^(d + 1)). */
  function MaxError(d: nat): (e: int)
    requires IsWidth(d)
    ensures 0 - Pow2(d) <= Q - 2 * Pow2(d) * e < Pow2(d)
  {
    Widths(d);
    if d == 1 then 832 else if d == 4 then 104 else if d == 5 then 52 else if d == 10 then 2 else 1
  }

  /** decompress(compress(x)) is x up to MaxError and a multiple of Q. */
  lemma CompressionError(d: nat, t: int) returns (e: int)
    requires IsWidth(d) && -Q <= t
    ensures -MaxError(d) <= e <= MaxError(d) && Cong(Decompress(d, Compress(d, t)), t + e, Q)
  {
    hide Compress, Decompress, Pow2, Cong;
    var k := CompressSpec(d, t);
    var y := Compress(d, t);
    DecompressSpec(d, y);
    Widths(d);
    e := Decompress(d, y) + Q * k - Norm(t);
    var p := Pow2(d);
    Regrouped(p, y, k, 0);
    ErrorSize(d, p, Decompress(d, y), y, k, Norm(t), e);
    CongIntro(Decompress(d, y), Norm(t) + e, Q, -k);
    NormSpec(t);
    CongIntro(e, e, Q, 0);
    CongAdd(Norm(t), t, e, e, Q);
    CongTrans(Decompress(d, y), Norm(t) + e, t + e, Q);
  }

  lemma ErrorSize(d: nat, p: int, x: int, y: int, k: int, t: int, e: int)
    requires IsWidth(d) && e == x + Q * k - t
    requires p == (if d == 1 then 2 else if d == 4 then 16 else if d == 5 then 32 else if d == 10 then 1024 else 2048)
    requires -p <= 2 * (p * x - Q * y) <= p && -1664 <= p * t - Q * (y + p * k) <= 1664
    ensures -MaxError(d) <= e <= MaxError(d)
  {
    hide Pow2;
    assert p * e == p * x + Q * (p * k) - p * t;
    assert -p - 3328 <= 2 * (p * e) <= p + 3328;
  }

  /** A bit, as decompress spreads it, survives compress exactly for noise in this window. */
  predicate Tolerated(bit: int, n: int) { -832 <= n <= (if bit == 0 then 832 else 831) }

  /** The representative of t in [-1664, 1664]. */
  function Centred(t: int): (r: int)
    ensures -1664 <= r <= 1664
  {
    if t % Q > 1664 then t % Q - Q else t % Q
  }

  lemma CentredCong(t: int)
    ensures Cong(Centred(t), t, Q)
  {
    hide Cong;
    CongIntro(Centred(t), t, Q, if t % Q > 1664 then -(t / Q) - 1 else -(t / Q));
  }

  lemma BitSurvives(bit: int, n: int, t: int)
    requires 0 <= bit <= 1 && -Q <= t && Cong(t, Decompress(1, bit) + n, Q)
    ensures Compress(1, t) == bit <==> Tolerated(bit, Centred(n))
  {
    hide Cong;
    Widths(1);
    var c := Centred(n);
    CentredCong(n);
    var x := Decompress(1, bit);
    CongIntro(x, x, Q, 0);
    CongSym(c, n, Q);
    CongAdd(x, x, n, c, Q);
    CongTrans(t, x + n, x + c, Q);
    CompressCong(1, t, x + c);
    BitWindow(bit, c);
  }

  lemma BitWindow(bit: int, c: int)
    requires 0 <= bit <= 1 && -1664 <= c <= 1664
    ensures -Q <= Decompress(1, bit) + c && (Compress(1, Decompress(1, bit) + c) == bit <==> Tolerated(bit, c))
  {
    Widths(1);
    assert Decompress(1, bit) == 1665 * bit;
  }

  // ----- the in-place loops -----

  predicate AtLeast(t: seq<int>, lo: int) { forall i :: 0 <= i < |t| ==> lo <= t[i] }

  function Compressed(d: nat, t: seq<int>): (y: seq<int>)
    requires IsWidth(d) && AtLeast(t, -Q)
    ensures |y| == |t|
  {
    seq(|t|, i requires 0 <= i < |t| => Compress(d, t[i]))
  }

  function Decompressed(d: nat, y: seq<int>): (t: seq<int>)
    requires IsWidth(d)
    ensures |t| == |y|
  {
    seq(|y|, i requires 0 <= i < |y| => Decompress(d, y[i]))
  }

  /** compress, in place; the products fit i32. */
  method CompressInPlace(t: array<I16>, d: nat)
    requires IsWidth(d) && AtLeast(t[..], -Q)
    modifies t
    ensures t[..] == Compressed(d, old(t[..]))
  {
    hide Compress, Pow2;
    Widths(d);
    var twod: I32 := Pow2(d);
    for i := 0 to t.Length
      invariant forall j :: 0 <= j < i ==> t[j] == Compress(d, old(t[j]))
      invariant forall j :: i <= j < t.Length ==> t[j] == old(t[j])
    {
      assert t[i] == old(t[..])[i];
      ghost var k := CompressSpec(d, t[i]);
      t[i] := CompressStep(d, twod, t[i]);
    }
  }

  method CompressStep(d: nat, twod: I32, v: I16) returns (r: I16)
    requires IsWidth(d) && twod == Pow2(d) && -Q <= v
    ensures r == Compress(d, v)
  {
    Widths(d);
    var w: I16 := Norm(v);
    var n: I32 := twod * w;
    n := n + Q / 2;
    r := (n / Q) % twod;
  }

  /** decompress, in place. */
  method DecompressInPlace(t: array<I16>, d: nat)
    requires IsWidth(d) && forall i :: 0 <= i < t.Length ==> 0 <= t[i] < Pow2(d)
    modifies t
    ensures t[..] == Decompressed(d, old(t[..]))
  {
    hide Decompress, Pow2;
    Widths(d);
    for i := 0 to t.Length
      invariant forall j :: 0 <= j < i ==> t[j] == Decompress(d, old(t[j]))
      invariant forall j :: i <= j < t.Length ==> t[j] == old(t[j])
    {
      DecompressSpec(d, t[i]);
      t[i] := Decompress(d, t[i]);
    }
  }

  // ----- encode, decode and chk_encode -----

  function Normed(t: seq<int>): (r: seq<int>)
    ensures |r| == |t|
  {
    seq(|t|, i requires 0 <= i < |t| => Norm(t[i]))
  }

  /** n polynomials whose normalised coefficients fit l bits. */
  predicate Encodable(t: seq<int>, n: nat, l: nat) { |t| == n * DEGREE && Fits(l, Normed(t)) }

  function Encoded(t: seq<int>, n: nat, l: nat): (pack: seq<int>)
    requires Encodable(t, n, l)
    ensures Bytes(pack, n * (32 * l))
  {
    Powers();
    Recoded(l, 8, n * (32 * l), Normed(t))
  }

  /** encode. */
  method Encode(t: seq<int>, n: nat, l: nat) returns (pack: seq<int>)
    requires l > 0 && Encodable(t, n, l)
    ensures pack == Encoded(t, n, l)
  {
    hide Recoded, Bits, Pow2;
    ByteCount(l, n);
    var ptr;
    pack, ptr := Recode(l, 8, n * (32 * l), Normed(t));
  }

  /** The prefix of the byte string that decode reads. */
  function Decoded(pack: seq<int>, l: nat, n: nat): (t: seq<int>)
    requires |pack| >= n * (32 * l) && Bytes(pack, |pack|)
    ensures |t| == n * DEGREE && Fits(l, t)
  {
    Powers();
    Recoded(8, l, n * DEGREE, pack[..n * (32 * l)])
  }

  /** Element k is the k-th word of l bits. */
  lemma DecodedExact(pack: seq<int>, l: nat, n: nat, k: nat)
    requires |pack| >= n * (32 * l) && Bytes(pack, |pack|) && k < n * DEGREE && l > 0
    ensures Decoded(pack, l, n)[k] == BitField(pack, l * k, l)
  {
    hide Recoded, Pow2, BitField;
    Powers();
    var part := pack[..n * (32 * l)];
    RecodedField(part, l, n * DEGREE, k);
    assert part == pack[0..n * (32 * l)];
    WordInside(l, n, k);
    FieldInPart(pack, 0, n * (32 * l), l * k, l);
  }

  lemma WordInside(l: nat, n: nat, k: nat)
    requires k < n * DEGREE && l > 0
    ensures 0 < n * (32 * l) && l * k + l <= 8 * (n * (32 * l))
  {
    ByteCount(l, n);
    MulMonotone(l, k + 1, n * DEGREE);
    MulDistributes(l, k, 1);
  }

  /** decode: bytes beyond the encoding are not looked at. */
  method Decode(pack: seq<int>, l: nat, n: nat) returns (t: seq<int>)
    requires l > 0 && |pack| >= n * (32 * l) && Bytes(pack, |pack|)
    ensures t == Decoded(pack, l, n)
  {
    hide Recoded, Bits, Pow2;
    Powers();
    ByteCount(l, n);
    var ptr;
    t, ptr := Recode(8, l, n * DEGREE, pack[..n * (32 * l)]);
  }

  /** decode(encode(t)) is t, every coefficient normalised. */
  lemma DecodeOfEncode(t: seq<int>, n: nat, l: nat, rest: seq<int>)
    requires Encodable(t, n, l) && Bytes(rest, |rest|)
    ensures Decoded(Encoded(t, n, l) + rest, l, n) == Normed(t)
  {
    hide Recoded, Bits, Pow2, Normed;
    Powers();
    ByteCount(l, n);
    RecodeRoundTrip(l, 8, n * (32 * l), Normed(t));
    assert (Encoded(t, n, l) + rest)[..n * (32 * l)] == Encoded(t, n, l);
  }

  /** encode(decode(b)) is the bytes read: nothing is lost either way. */
  lemma EncodeOfDecode(pack: seq<int>, n: nat, l: nat)
    requires Bytes(pack, n * (32 * l))
    ensures Encodable(Decoded(pack, l, n), n, l) && Encoded(Decoded(pack, l, n), n, l) == pack
  {
    hide Recoded, Bits, Pow2;
    Powers();
    ByteCount(l, n);
    assert pack[..n * (32 * l)] == pack;
    RecodeRoundTrip(8, l, n * DEGREE, pack);
    assert Normed(Decoded(pack, l, n)) == Decoded(pack, l, n);
  }

  /** Below Q in size, the normalised coefficient is the residue modulo Q. */
  lemma DecodedResidues(t: seq<int>, n: nat, rest: seq<int>)
    requires |t| == n * DEGREE && (forall i :: 0 <= i < |t| ==> -Q < t[i] < Q) && Bytes(rest, |rest|)
    ensures Encodable(t, n, 12)
    ensures forall i :: 0 <= i < |t| ==> Decoded(Encoded(t, n, 12) + rest, 12, n)[i] == t[i] % Q
  {
    hide Recoded, Bits, Pow2, Encoded, Decoded;
    Powers();
    forall i | 0 <= i < |t| ensures Normed(t)[i] == t[i] % Q {
      NormSpec(t[i]);
    }
    DecodeOfEncode(t, n, 12, rest);
  }

  // ----- the comparison -----

  /** x ^ y on naturals. */
  function Xor(x: nat, y: nat): (z: nat)
  {
    if x == 0 && y == 0 then 0 else (if x % 2 == y % 2 then 0 else 1) + 2 * Xor(x / 2, y / 2)
  }

  lemma {:induction false} XorZero(x: nat, y: nat)
    ensures Xor(x, y) == 0 <==> x == y
  {
    if x > 0 || y > 0 {
      XorZero(x / 2, y / 2);
    }
  }

  lemma {:induction false} XorTwice(x: nat, y: nat)
    ensures Xor(x, Xor(x, y)) == y
  {
    if x > 0 || y > 0 {
      XorTwice(x / 2, y / 2);
    }
  }

  lemma {:induction false} OrOfZeros(x: nat, y: nat)
    ensures Or(x, y) == 0 <==> x == 0 && y == 0
  {
    if x > 0 || y > 0 {
      OrOfZeros(x / 2, y / 2);
    }
  }

  /** chk_encode: zero exactly when pack starts with the encoding of t. */
  method ChkEncode(t: seq<int>, n: nat, l: nat, pack: seq<int>) returns (diff: nat)
    requires l > 0 && Encodable(t, n, l) && |pack| >= n * (32 * l) && Bytes(pack, |pack|)
    ensures diff == 0 <==> Encoded(t, n, l) == pack[..n * (32 * l)]
  {
    hide Recoded, Bits, Pow2, Xor, Or, Shr, Low, Val, Digits, Normed;
    var w := Normed(t);
    var bytes := n * (32 * l);
    ByteCount(l, n);
    BitsStep(l, 0);
    BitsStep(8, 0);
    var ptr, bts := 0, 0;
    diff := 0;
    for k := 0 to bytes
      invariant Bits(l, ptr) + bts == Bits(8, k) && 0 <= bts < l
      invariant diff == 0 <==> Encoded(t, n, l)[..k] == pack[..k]
    {
      var m;
      BitsLess(8, k + 1, bytes);
      BitsStep(8, k);
      m, ptr, bts := NextChunk(l, 8, w, ptr, bts);
      EncodedAt(t, n, l, k);
      XorZero(m, pack[k]);
      OrOfZeros(diff, Xor(m, pack[k]));
      PrefixStep(Encoded(t, n, l), pack, k);
      diff := Or(diff, Xor(m, pack[k]));
    }
    assert Encoded(t, n, l)[..bytes] == Encoded(t, n, l);
  }

  lemma PrefixStep(a: seq<int>, b: seq<int>, k: nat)
    requires k < |a| && k < |b|
    ensures a[..k + 1] == b[..k + 1] <==> a[..k] == b[..k] && a[k] == b[k]
  {
    assert a[..k + 1] == a[..k] + [a[k]] && b[..k + 1] == b[..k] + [b[k]];
  }

  lemma EncodedAt(t: seq<int>, n: nat, l: nat, k: nat)
    requires Encodable(t, n, l) && k < n * (32 * l)
    ensures Encoded(t, n, l)[k] == Low(Shr(Val(l, Normed(t)), Bits(8, k)), 8)
  {
    hide Bits, Pow2, Shr, Low, Val, Digits, Normed;
    DigitsAt(8, n * (32 * l), Val(l, Normed(t)), k);
  }
}
