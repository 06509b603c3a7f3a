/** Vectors of polynomials stored row after row, and the byte strings they are packed into. */
module PolyVector {
  import opened BitStream
  import opened QuotientRing
  import opened TransformTree

  predicate Bytes(s: seq<int>, n: nat) { |s| == n && forall i :: 0 <= i < n ==> 0 <= s[i] < 256 }

  /** n polynomials, row after row, all elements in [lo, hi]. */
  predicate Vector(s: seq<int>, n: nat, lo: int, hi: int) {
    |s| == n * DEGREE && forall i :: 0 <= i < |s| ==> lo <= s[i] <= hi
  }

  function Row(v: seq<int>, i: nat): (p: Poly)
    requires (i + 1) * DEGREE <= |v|
    ensures |p| == DEGREE
  {
    v[i * DEGREE..(i + 1) * DEGREE]
  }

  lemma RowVector(v: seq<int>, n: nat, lo: int, hi: int, i: nat)
    requires Vector(v, n, lo, hi) && i < n
    ensures Vector(Row(v, i), 1, lo, hi)
  {
  }

  lemma RowsAppend(v: seq<int>, p: seq<int>, n: nat)
    requires |v| == n * DEGREE && |p| == DEGREE
    ensures forall i: nat :: i < n ==> Row(v + p, i) == Row(v, i)
    ensures Row(v + p, n) == p
  {
  }

  lemma VectorAppend(v: seq<int>, p: seq<int>, n: nat, lo: int, hi: int)
    requires Vector(v, n, lo, hi) && Vector(p, 1, lo, hi)
    ensures Vector(v + p, n + 1, lo, hi)
  {
  }

  /** w-bit words of a vector of n polynomials are 32 n w bytes. */
  lemma ByteCount(w: nat, n: nat)
    ensures Bits(8, n * (32 * w)) == Bits(w, n * DEGREE)
  {
  }

  lemma Powers()
    ensures Pow2(1) == 2 && Pow2(3) == 8 && Pow2(4) == 16 && Pow2(5) == 32 && Pow2(6) == 64 && Pow2(8) == 256
    ensures Pow2(10) == 1024 && Pow2(11) == 2048 && Pow2(12) == 4096 && Pow2(13) == 8192
    ensures Pow2(18) == 0x4_0000 && Pow2(20) == 0x10_0000 && Pow2(23) == 0x80_0000
  {
    assert Pow2(3) == 8;
    assert Pow2(6) == 8 * Pow2(3);
    assert Pow2(9) == 8 * Pow2(6);
    assert Pow2(12) == 8 * Pow2(9);
    assert Pow2(15) == 8 * Pow2(12);
    assert Pow2(18) == 8 * Pow2(15);
    assert Pow2(21) == 8 * Pow2(18);
  }

  // ----- bit fields of byte strings -----

  /** The w bits of a byte string from bit position at on, its bytes read as one number, least significant first. */
  function BitField(b: seq<int>, at: nat, w: nat): (v: nat)
    requires Bytes(b, |b|)
  {
    Powers();
    Low(Shr(Val(8, b), at), w)
  }

  /** Cutting a byte string into words yields its consecutive bit fields. */
  lemma RecodedField(b: seq<int>, w: nat, n: nat, k: nat)
    requires Bytes(b, |b|) && k < n
    ensures Fits(8, b) && Recoded(8, w, n, b)[k] == BitField(b, w * k, w)
  {
    hide Pow2, Val, Digits, Shr, Low;
    Powers();
    DigitsAt(w, n, Val(8, b), k);
  }

  /** The first n words of w bits each. */
  function Words(b: seq<int>, w: nat, n: nat): (t: seq<int>)
    requires Bytes(b, |b|)
    ensures |t| == n
  {
    seq(n, k requires 0 <= k < n => BitField(b, w * k, w))
  }

  lemma RecodedWords(b: seq<int>, w: nat, n: nat)
    requires Bytes(b, |b|)
    ensures Fits(8, b) && Recoded(8, w, n, b) == Words(b, w, n)
  {
    hide Pow2, Recoded, BitField;
    Powers();
    forall k: nat | k < n ensures Recoded(8, w, n, b)[k] == BitField(b, w * k, w) {
      RecodedField(b, w, n, k);
    }
  }

  /** A field of a part of a byte string is the field of the whole at the place where the part lies. */
  lemma FieldInPart(b: seq<int>, lo: nat, hi: nat, at: nat, w: nat)
    requires Bytes(b, |b|) && lo < hi <= |b| && at + w <= 8 * (hi - lo)
    ensures BitField(b[lo..hi], at, w) == BitField(b, 8 * lo + at, w)
  {
    hide Pow2, Val, Shr, Low;
    Powers();
    assert b[..hi][lo..] == b[lo..hi];
    LowBits(8, b, lo, at, hi - lo - 1, 8 * (hi - lo) - at, w);
    RestIsShift(8, b, lo, at);
  }

  /** Bit n of a byte string is bit n % 8 of byte n / 8. */
  lemma BitInByte(b: seq<int>, n: nat)
    requires Bytes(b, |b|) && n / 8 < |b|
    ensures Low(Shr(b[n / 8], n % 8), 1) == BitField(b, n, 1)
  {
    hide Pow2, Val, Bits, Shr, Low;
    Powers();
    var ptr, bts := n / 8, n % 8;
    FirstWord(8, b, ptr, bts);
    BitsStep(8, 0);
    LowBits(8, b, ptr, bts, 0, 8 - bts, 1);
    RestIsShift(8, b, ptr, bts);
    EightBits(n);
  }

  lemma EightBits(n: nat)
    ensures Bits(8, n / 8) + n % 8 == n
  {
  }

  /** Three bytes at p, and the number rest that follows them. */
  lemma ThreeBytes(b: seq<int>, p: nat) returns (rest: nat)
    requires Bytes(b, |b|) && p + 3 <= |b|
    ensures Fits(8, b) && Shr(Val(8, b), 8 * p) == b[p] + 256 * (b[p + 1] + 256 * (b[p + 2] + 256 * rest))
  {
    hide Pow2, Val, Shr, Low;
    Powers();
    RestIsShift(8, b, p, 0);
    ShrZero(Val(8, b[p..]));
    ValStep(8, b[p..]);
    assert b[p..][1..] == b[p + 1..] && b[p + 1..][1..] == b[p + 2..] && b[p + 2..][1..] == b[p + 3..];
    ValStep(8, b[p + 1..]);
    ValStep(8, b[p + 2..]);
    rest := Val(8, b[p + 3..]);
  }
}
