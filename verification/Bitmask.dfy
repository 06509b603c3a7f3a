/** Bitmask topics of composite.rs: slicing into single bits, and coverage. */
module Bitmask {
  import opened Network

  /** 1 << (7 - k). */
  function Bit(k: nat): (b: bv8)
    requires k < 8
  {
    match k
    case 0 => 0x80 case 1 => 0x40 case 2 => 0x20 case 3 => 0x10
    case 4 => 0x08 case 5 => 0x04 case 6 => 0x02 case 7 => 0x01
  }

  predicate Has(b: bv8, k: nat)
    requires k < 8
  {
    b & Bit(k) != 0
  }

  lemma BitHas(j: nat, k: nat)
    requires j < 8 && k < 8
    ensures Has(Bit(j), k) <==> j == k
  {
  }

  /** Superset of bits, byte by byte. */
  lemma MaskIffBits(h: bv8, n: bv8)
    ensures h & n == n <==> forall k :: 0 <= k < 8 && Has(n, k) ==> Has(h, k)
  {
    AllBits(h, n);
    assert (forall k :: 0 <= k < 8 && Has(n, k) ==> Has(h, k)) ==>
      (Has(n, 0) ==> Has(h, 0)) && (Has(n, 1) ==> Has(h, 1)) && (Has(n, 2) ==> Has(h, 2)) && (Has(n, 3) ==> Has(h, 3)) &&
      (Has(n, 4) ==> Has(h, 4)) && (Has(n, 5) ==> Has(h, 5)) && (Has(n, 6) ==> Has(h, 6)) && (Has(n, 7) ==> Has(h, 7));
    forall k | 0 <= k < 8 && h & n == n && Has(n, k) ensures Has(h, k) {
      OneBit(h, n, k);
    }
  }

  lemma OneBit(h: bv8, n: bv8, k: nat)
    requires k < 8 && h & n == n && Has(n, k)
    ensures Has(h, k)
  {
  }

  lemma AllBits(h: bv8, n: bv8)
    ensures (Has(n, 0) ==> Has(h, 0)) && (Has(n, 1) ==> Has(h, 1)) && (Has(n, 2) ==> Has(h, 2)) && (Has(n, 3) ==> Has(h, 3)) &&
      (Has(n, 4) ==> Has(h, 4)) && (Has(n, 5) ==> Has(h, 5)) && (Has(n, 6) ==> Has(h, 6)) && (Has(n, 7) ==> Has(h, 7))
      ==> h & n == n
  {
  }

  lemma ZeroIffNoBits(b: bv8)
    ensures b == 0 <==> forall k :: 0 <= k < 8 ==> !Has(b, k)
  {
    assert (forall k :: 0 <= k < 8 ==> !Has(b, k)) ==>
      !Has(b, 0) && !Has(b, 1) && !Has(b, 2) && !Has(b, 3) && !Has(b, 4) && !Has(b, 5) && !Has(b, 6) && !Has(b, 7);
  }

  // ----- coverage -----

  /** bitmask_covers. */
  predicate Covers(h: Topic, n: Topic) {
    |h| == |n| && forall i :: 0 <= i < |h| ==> h[i] & n[i] == n[i]
  }

  predicate IsZero(m: Topic) { forall i :: 0 <= i < |m| ==> m[i] == 0 }

  /** The mask of length n with only bit k of byte i set. */
  function Single(n: nat, i: nat, k: nat): (t: Topic)
    requires i < n && k < 8
    ensures |t| == n
  {
    seq(n, j requires 0 <= j < n => if j == i then Bit(k) else 0)
  }

  // ----- slicing -----

  /** The single bits of byte i from bit k on. */
  function ByteSlices(m: Topic, i: nat, k: nat): (s: seq<Topic>)
    requires i < |m| && k <= 8
    decreases 8 - k
  {
    if k == 8 then [] else (if Has(m[i], k) then [Single(|m|, i, k)] else []) + ByteSlices(m, i, k + 1)
  }

  /** The single bits from byte i on. */
  function BitsFrom(m: Topic, i: nat): (s: seq<Topic>)
    requires i <= |m|
    decreases |m| - i
  {
    if i == |m| then [] else ByteSlices(m, i, 0) + BitsFrom(m, i + 1)
  }

  function Slices(m: Topic): (s: seq<Topic>)
  {
    if IsZero(m) then [m] else BitsFrom(m, 0)
  }

  /** slice_bitmask. */
  method SliceBitmask(m: Topic) returns (s: seq<Topic>)
    ensures s == Slices(m)
  {
    hide Has, Single, ByteSlices;
    if m == [] {
      return [[]];
    }
    if forall i :: 0 <= i < |m| ==> m[i] == 0 {
      return [m];
    }
    s := [];
    for i := 0 to |m|
      invariant s + BitsFrom(m, i) == BitsFrom(m, 0)
    {
      var t := SliceByte(m, i);
      assert s + (ByteSlices(m, i, 0) + BitsFrom(m, i + 1)) == (s + t) + BitsFrom(m, i + 1);
      s := s + t;
    }
    SlicesExist(m);
    if s == [] {
      s := [m];
    }
  }

  /** The loop over the bits of one byte. */
  method SliceByte(m: Topic, i: nat) returns (s: seq<Topic>)
    requires i < |m|
    ensures s == ByteSlices(m, i, 0)
  {
    hide Has, Single, ByteSlices;
    s := [];
    NoBitsLeft(m, i);
    for k := 0 to 8
      invariant s + ByteSlices(m, i, k) == ByteSlices(m, i, 0)
    {
      ByteSlicesStep(m, i, k);
      if Has(m[i], k) {
        assert s + ([Single(|m|, i, k)] + ByteSlices(m, i, k + 1)) == (s + [Single(|m|, i, k)]) + ByteSlices(m, i, k + 1);
        s := s + [Single(|m|, i, k)];
      }
    }
    assert s + [] == s;
  }

  lemma ByteSlicesStep(m: Topic, i: nat, k: nat)
    requires i < |m| && k < 8
    ensures ByteSlices(m, i, k) == if Has(m[i], k) then [Single(|m|, i, k)] + ByteSlices(m, i, k + 1) else ByteSlices(m, i, k + 1)
  {
    hide Has, Single;
  }

  lemma NoBitsLeft(m: Topic, i: nat)
    requires i < |m|
    ensures ByteSlices(m, i, 8) == []
  {
  }

  /** t is the single bit k of byte i, and that bit is set in m. */
  ghost predicate IsBitOf(t: Topic, m: Topic, i: nat, k: nat) {
    i < |m| && k < 8 && Has(m[i], k) && t == Single(|m|, i, k)
  }

  lemma {:induction false} ByteSlicesExact(m: Topic, i: nat, k: nat, t: Topic)
    requires i < |m| && k <= 8
    ensures t in ByteSlices(m, i, k) <==> exists j :: k <= j < 8 && IsBitOf(t, m, i, j)
    decreases 8 - k
  {
    hide Has, Single;
    if k < 8 {
      ByteSlicesExact(m, i, k + 1, t);
      if t in ByteSlices(m, i, k) && !IsBitOf(t, m, i, k) {
        assert t in ByteSlices(m, i, k + 1);
      }
    }
  }

  lemma {:induction false} BitsFromExact(m: Topic, i: nat, t: Topic)
    requires i <= |m|
    ensures t in BitsFrom(m, i) <==> exists b, k :: i <= b && IsBitOf(t, m, b, k)
    decreases |m| - i
  {
    hide Has, Single, ByteSlices;
    if i < |m| {
      ByteSlicesExact(m, i, 0, t);
      BitsFromExact(m, i + 1, t);
      if t in BitsFrom(m, i) && t !in ByteSlices(m, i, 0) {
        assert t in BitsFrom(m, i + 1);
      }
      if exists b, k :: i <= b && IsBitOf(t, m, b, k) {
        var b, k :| i <= b && IsBitOf(t, m, b, k);
        if b == i {
          assert t in ByteSlices(m, i, 0);
        } else {
          assert i + 1 <= b && IsBitOf(t, m, b, k);
          assert t in BitsFrom(m, i + 1);
        }
      }
    }
  }

  /** The slices of a non-zero mask are exactly its set bits, one mask each. */
  lemma SlicesExact(m: Topic, t: Topic)
    requires !IsZero(m)
    ensures t in Slices(m) <==> exists i, k :: IsBitOf(t, m, i, k)
  {
    hide BitsFrom, IsBitOf, IsZero;
    BitsFromExact(m, 0, t);
    assert t in Slices(m) <==> t in BitsFrom(m, 0);
    if exists i, k :: IsBitOf(t, m, i, k) {
      var i, k :| IsBitOf(t, m, i, k);
      assert 0 <= i && IsBitOf(t, m, i, k);
    }
  }

  lemma SlicesExist(m: Topic)
    requires !IsZero(m)
    ensures BitsFrom(m, 0) != []
  {
    hide BitsFrom, Has, Single;
    var i :| 0 <= i < |m| && m[i] != 0;
    ZeroIffNoBits(m[i]);
    var k :| 0 <= k < 8 && Has(m[i], k);
    BitsFromExact(m, 0, Single(|m|, i, k));
    assert IsBitOf(Single(|m|, i, k), m, i, k);
  }

  predicate Distinct(s: seq<Topic>) { forall i, j :: 0 <= i < j < |s| ==> s[i] != s[j] }

  lemma SinglesDiffer(n: nat, i: nat, k: nat, i': nat, k': nat)
    requires i < n && i' < n && k < 8 && k' < 8 && (i != i' || k != k')
    ensures Single(n, i, k) != Single(n, i', k')
  {
    BitHas(k, k');
    BitHas(k, k);
    var a, b := Single(n, i, k), Single(n, i', k');
    assert a[i] == Bit(k) && b[i'] == Bit(k');
    assert i != i' ==> b[i] == 0;
    AndOfZero(k);
  }

  lemma AndOfZero(k: nat)
    requires k < 8
    ensures Bit(k) != 0
  {
  }

  lemma {:induction false} ByteSlicesDistinct(m: Topic, i: nat, k: nat)
    requires i < |m| && k <= 8
    ensures Distinct(ByteSlices(m, i, k))
    decreases 8 - k
  {
    hide Has, Single;
    if k < 8 {
      ByteSlicesDistinct(m, i, k + 1);
      if Has(m[i], k) {
        var t, rest := Single(|m|, i, k), ByteSlices(m, i, k + 1);
        ByteSlicesExact(m, i, k + 1, t);
        forall j | k + 1 <= j < 8 ensures !IsBitOf(t, m, i, j) {
          SinglesDiffer(|m|, i, k, i, j);
        }
        assert t !in rest;
        assert ByteSlices(m, i, k) == [t] + rest;
      } else {
        assert ByteSlices(m, i, k) == ByteSlices(m, i, k + 1);
      }
    }
  }

  lemma ConcatDistinct(a: seq<Topic>, b: seq<Topic>)
    requires Distinct(a) && Distinct(b) && forall t :: t in a ==> t !in b
    ensures Distinct(a + b)
  {
    forall i, j | 0 <= i < j < |a + b| ensures (a + b)[i] != (a + b)[j] {
      if i < |a| <= j {
        assert a[i] in a && b[j - |a|] in b;
      }
    }
  }

  lemma {:induction false} BitsFromDistinct(m: Topic, i: nat)
    requires i <= |m|
    ensures Distinct(BitsFrom(m, i))
    decreases |m| - i
  {
    hide Has, Single, ByteSlices;
    if i < |m| {
      BitsFromDistinct(m, i + 1);
      ByteSlicesDistinct(m, i, 0);
      forall t | t in ByteSlices(m, i, 0) ensures t !in BitsFrom(m, i + 1) {
        NotInLaterBytes(m, i, t);
      }
      ConcatDistinct(ByteSlices(m, i, 0), BitsFrom(m, i + 1));
    }
  }

  lemma NotInLaterBytes(m: Topic, i: nat, t: Topic)
    requires i < |m| && t in ByteSlices(m, i, 0)
    ensures t !in BitsFrom(m, i + 1)
  {
    hide Has, Single, ByteSlices, BitsFrom;
    ByteSlicesExact(m, i, 0, t);
    BitsFromExact(m, i + 1, t);
    var j :| 0 <= j < 8 && IsBitOf(t, m, i, j);
    forall b: nat, k: nat | i + 1 <= b < |m| && k < 8 ensures !IsBitOf(t, m, b, k) {
      SinglesDiffer(|m|, i, j, b, k);
    }
  }

  /** No slice occurs twice. */
  lemma SlicesDistinct(m: Topic)
    ensures Distinct(Slices(m)) && Slices(m) != []
  {
    hide BitsFrom;
    if !IsZero(m) {
      BitsFromDistinct(m, 0);
      SlicesExist(m);
    }
  }

  /** The union of masks of one length. */
  function Union(s: seq<Topic>, n: nat): (t: Topic)
    requires forall i :: 0 <= i < |s| ==> |s[i]| == n
    ensures |t| == n
  {
    if s == [] then seq(n, i => 0)
    else
      var u := Union(s[1..], n);
      seq(n, i requires 0 <= i < n => s[0][i] | u[i])
  }

  lemma OrHas(a: bv8, b: bv8, k: nat)
    requires k < 8
    ensures Has(a | b, k) <==> Has(a, k) || Has(b, k)
  {
  }

  lemma ZeroHas(k: nat)
    requires k < 8
    ensures !Has(0, k)
  {
  }

  /** A bit is in the union exactly if it is in one of the masks. */
  lemma {:induction false} UnionHas(s: seq<Topic>, n: nat, i: nat, k: nat)
    requires (forall j :: 0 <= j < |s| ==> |s[j]| == n) && i < n && k < 8
    ensures Has(Union(s, n)[i], k) <==> exists j :: 0 <= j < |s| && Has(s[j][i], k)
  {
    hide Has;
    if s == [] {
      ZeroHas(k);
    } else {
      UnionHas(s[1..], n, i, k);
      OrHas(s[0][i], Union(s[1..], n)[i], k);
      if exists j :: 0 <= j < |s[1..]| && Has(s[1..][j][i], k) {
        var j :| 0 <= j < |s[1..]| && Has(s[1..][j][i], k);
        assert Has(s[j + 1][i], k);
      }
      if exists j :: 0 < j < |s| && Has(s[j][i], k) {
        var j :| 0 < j < |s| && Has(s[j][i], k);
        assert Has(s[1..][j - 1][i], k);
      }
    }
  }

  lemma SliceLengths(m: Topic)
    ensures forall j :: 0 <= j < |Slices(m)| ==> |Slices(m)[j]| == |m|
  {
    hide BitsFrom, Single;
    if !IsZero(m) {
      forall j | 0 <= j < |Slices(m)| ensures |Slices(m)[j]| == |m| {
        SlicesExact(m, Slices(m)[j]);
      }
    }
  }

  lemma SameBits(a: bv8, b: bv8)
    requires forall k :: 0 <= k < 8 ==> (Has(a, k) <==> Has(b, k))
    ensures a == b
  {
    hide Has;
    MaskIffBits(a, b);
    MaskIffBits(b, a);
    BothMasks(a, b);
  }

  lemma BothMasks(a: bv8, b: bv8)
    requires a & b == b && b & a == a
    ensures a == b
  {
  }

  lemma SingleHas(n: nat, i: nat, k: nat, i': nat, k': nat)
    requires i < n && i' < n && k < 8 && k' < 8
    ensures Has(Single(n, i, k)[i'], k') <==> i == i' && k == k'
  {
    if i == i' {
      BitHas(k, k');
    } else {
      ZeroHas(k');
    }
  }

  /** The union of the slices is the mask. */
  lemma UnionOfSlices(m: Topic)
    ensures (forall j :: 0 <= j < |Slices(m)| ==> |Slices(m)[j]| == |m|) && Union(Slices(m), |m|) == m
  {
    hide Has, Single, Union, Slices;
    SliceLengths(m);
    var s := Slices(m);
    forall i | 0 <= i < |m| ensures Union(s, |m|)[i] == m[i] {
      forall k | 0 <= k < 8 ensures Has(Union(s, |m|)[i], k) <==> Has(m[i], k) {
        UnionHas(s, |m|, i, k);
        SliceBitIff(m, i, k);
      }
      SameBits(Union(s, |m|)[i], m[i]);
    }
  }

  /** A bit is set in a mask exactly if it is set in one of its slices. */
  lemma SliceBitIff(m: Topic, i: nat, k: nat)
    requires i < |m| && k < 8 && forall j :: 0 <= j < |Slices(m)| ==> |Slices(m)[j]| == |m|
    ensures Has(m[i], k) <==> exists j :: 0 <= j < |Slices(m)| && Has(Slices(m)[j][i], k)
  {
    hide Has, Single, BitsFrom;
    var s := Slices(m);
    if IsZero(m) {
      assert s == [m];
      if Has(m[i], k) {
        assert Has(s[0][i], k);
      }
    } else {
      if Has(m[i], k) {
        var t := Single(|m|, i, k);
        SlicesExact(m, t);
        assert IsBitOf(t, m, i, k);
        var j :| 0 <= j < |s| && s[j] == t;
        SingleHas(|m|, i, k, i, k);
      }
      forall j | 0 <= j < |s| && Has(s[j][i], k) ensures Has(m[i], k) {
        SlicesExact(m, s[j]);
        var b, c :| IsBitOf(s[j], m, b, c);
        SingleHas(|m|, b, c, i, k);
      }
    }
  }

  /** A slice is its own only slice. */
  lemma SliceOfSlice(m: Topic, s: Topic)
    requires !IsZero(m) && s in Slices(m)
    ensures forall t :: t in Slices(s) ==> t == s
  {
    hide Has, Single, Slices;
    SlicesExact(m, s);
    var i, k :| IsBitOf(s, m, i, k);
    SingleHas(|m|, i, k, i, k);
    ZeroHas(k);
    assert !IsZero(s);
    forall t | t in Slices(s) ensures t == s {
      SlicesExact(s, t);
      var b, c :| IsBitOf(t, s, b, c);
      SingleHas(|m|, i, k, b, c);
    }
  }

  // ----- coverage and slices -----

  /** covers_all_slices. */
  predicate CoversAll(h: Topic, s: seq<Topic>) { forall j :: 0 <= j < |s| ==> Covers(h, s[j]) }

  lemma CoversByBits(h: Topic, n: Topic)
    requires |h| == |n|
    ensures Covers(h, n) <==> forall i, k :: 0 <= i < |n| && 0 <= k < 8 && Has(n[i], k) ==> Has(h[i], k)
  {
    hide Has;
    forall i | 0 <= i < |n|
      ensures h[i] & n[i] == n[i] <==> forall k :: 0 <= k < 8 && Has(n[i], k) ==> Has(h[i], k)
    {
      MaskIffBits(h[i], n[i]);
    }
  }

  /** A mask is covered exactly if all its slices are, for all masks: empty, zero and of any two lengths. */
  lemma CoversIffAllSlices(h: Topic, m: Topic)
    ensures Covers(h, m) <==> CoversAll(h, Slices(m))
  {
    hide Has, Single, Slices, Covers;
    SlicesDistinct(m);
    SliceLengths(m);
    var s := Slices(m);
    if |h| != |m| {
      LengthsDiffer(h, m);
      LengthsDiffer(h, s[0]);
    } else {
      CoversByBits(h, m);
      forall j | 0 <= j < |s| ensures Covers(h, s[j]) <==> forall i, k :: 0 <= i < |m| && 0 <= k < 8 && Has(s[j][i], k) ==> Has(h[i], k) {
        CoversByBits(h, s[j]);
      }
      forall i, k | 0 <= i < |m| && 0 <= k < 8 ensures Has(m[i], k) <==> exists j :: 0 <= j < |s| && Has(s[j][i], k) {
        SliceBitIff(m, i, k);
      }
    }
  }

  lemma LengthsDiffer(h: Topic, m: Topic)
    requires |h| != |m|
    ensures !Covers(h, m)
  {
  }

  /** A mask that covers another has the other's slices among its own. */
  lemma CoveredSlices(b: Topic, m: Topic)
    requires Covers(b, m) && !IsZero(m)
    ensures !IsZero(b) && forall t :: t in Slices(m) ==> t in Slices(b)
  {
    hide Has, Single, Slices, Covers;
    CoversSize(b, m);
    NonZeroCover(b, m);
    CoversByBits(b, m);
    forall t | t in Slices(m) ensures t in Slices(b) {
      SlicesExact(m, t);
      var i, k :| IsBitOf(t, m, i, k);
      SlicesExact(b, t);
      assert IsBitOf(t, b, i, k);
    }
  }

  lemma CoversSize(b: Topic, m: Topic)
    requires Covers(b, m)
    ensures |b| == |m|
  {
  }

  lemma NonZeroCover(b: Topic, m: Topic)
    requires Covers(b, m) && !IsZero(m)
    ensures !IsZero(b)
  {
    var i :| 0 <= i < |m| && m[i] != 0;
    ZeroMasks(b[i], m[i]);
  }

  lemma ZeroMasks(b: bv8, m: bv8)
    requires b & m == m && m != 0
    ensures b != 0
  {
  }
}
