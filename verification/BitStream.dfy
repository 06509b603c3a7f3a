/**
 Dense bit packing through a moving cursor, as both lattice schemes do it: nextbyte* cuts a sequence of
 ab-bit words into bytes, nextword cuts a byte sequence into ab-bit words. Both are one algorithm, here
 NextChunk, with the two widths exchanged.
 */
module BitStream {

  function Pow2(n: nat): (p: nat)
    ensures p > 0
  {
    if n == 0 then 1 else 2 * Pow2(n - 1)
  }

  lemma {:induction false} Pow2Add(a: nat, b: nat)
    ensures Pow2(a + b) == Pow2(a) * Pow2(b)
  {
    if a > 0 {
      Pow2Add(a - 1, b);
      MulAssoc(2, Pow2(a - 1), Pow2(b));
    }
  }

  lemma MulAssoc(a: int, b: int, c: int)
    ensures a * (b * c) == (a * b) * c
  {
  }

  lemma MulDistributes(a: int, b: int, c: int)
    ensures a * (b + c) == a * b + a * c
  {
  }

  lemma MulMonotone(w: nat, a: int, b: int)
    ensures a <= b ==> w * a <= w * b
  {
  }

  /** w bits for each of n words. */
  function Bits(w: nat, n: nat): (b: nat) { w * n }

  lemma BitsStep(w: nat, n: nat)
    ensures Bits(w, n + 1) == w + Bits(w, n) && Bits(w, 0) == 0
  {
  }

  lemma BitsAdd(w: nat, m: nat, n: nat)
    ensures Bits(w, m + n) == Bits(w, m) + Bits(w, n)
  {
  }

  lemma BitsLess(w: nat, m: nat, n: nat)
    ensures Bits(w, m) < Bits(w, n) ==> m < n
    ensures m <= n ==> Bits(w, m) <= Bits(w, n)
  {
    MulMonotone(w, n, m);
    MulMonotone(w, m, n);
  }

  lemma Pow2Step(w: nat, n: nat)
    ensures Pow2(Bits(w, n + 1)) == Pow2(w) * Pow2(Bits(w, n))
  {
    hide Pow2, Bits;
    BitsStep(w, n);
    Pow2Add(w, Bits(w, n));
  }

  // ----- shifts and masks -----

  function Div(x: nat, d: nat): (k: nat)
    requires d > 0
  {
    x / d
  }

  /** x >> n. */
  function Shr(x: nat, n: nat): (y: nat) { Div(x, Pow2(n)) }

  /** The low n bits of x. */
  function Low(x: nat, n: nat): (y: nat) { x % Pow2(n) }

  lemma DivUnique(x: nat, d: nat, k: int, r: int)
    requires d > 0 && x == d * k + r && 0 <= r < d
    ensures x / d == k && x % d == r
  {
    var k', r' := x / d, x % d;
    MulDistributes(d, k, -k');
    assert d * -k' == -(d * k');
    MulMonotone(d, 1, k - k');
    MulMonotone(d, k - k', -1);
  }

  lemma ShrLow(x: nat, n: nat)
    ensures x == Pow2(n) * Shr(x, n) + Low(x, n) && Low(x, n) < Pow2(n)
  {
    hide Pow2;
  }

  lemma ShrUnique(x: nat, n: nat, k: nat, r: nat)
    requires x == Pow2(n) * k + r && r < Pow2(n)
    ensures Shr(x, n) == k && Low(x, n) == r
  {
    hide Pow2;
    DivUnique(x, Pow2(n), k, r);
  }

  /** A value below 2^(a + b) shifted down by a is below 2^b. */
  lemma ShrBound(x: nat, a: nat, b: nat)
    requires x < Pow2(a + b)
    ensures Shr(x, a) < Pow2(b)
  {
    hide Pow2, Shr, Low;
    ShrLow(x, a);
    Pow2Add(a, b);
    MulMonotone(Pow2(a), Pow2(b), Shr(x, a));
  }

  lemma ShrShr(x: nat, a: nat, b: nat)
    ensures Shr(x, a + b) == Shr(Shr(x, a), b)
  {
    hide Pow2, Shr, Low;
    var y := Shr(x, a);
    var k, l := Shr(y, b), Low(y, b);
    ShrLow(x, a);
    ShrLow(y, b);
    Pow2Add(a, b);
    var p, q := Pow2(a), Pow2(b);
    calc {
      x;
      p * (q * k + l) + Low(x, a);
      { MulDistributes(p, q * k, l); MulAssoc(p, q, k); }
      (p * q) * k + (p * l + Low(x, a));
    }
    MulMonotone(p, l + 1, q);
    MulDistributes(p, l, 1);
    ShrUnique(x, a + b, k, p * l + Low(x, a));
  }

  /** Adding a multiple of 2^(n + m) adds 2^m times it after a shift by n. */
  lemma ShrAdd(a: nat, x: nat, n: nat, m: nat)
    ensures Shr(a + Pow2(n + m) * x, n) == Shr(a, n) + Pow2(m) * x
    ensures Low(a + Pow2(n + m) * x, n) == Low(a, n)
  {
    hide Pow2, Shr, Low;
    ShrLow(a, n);
    Pow2Add(n, m);
    MulAssoc(Pow2(n), Pow2(m), x);
    MulDistributes(Pow2(n), Shr(a, n), Pow2(m) * x);
    ShrUnique(a + Pow2(n + m) * x, n, Shr(a, n) + Pow2(m) * x, Low(a, n));
  }

  /** x | y on naturals. */
  function Or(x: nat, y: nat): (z: nat)
  {
    if x == 0 && y == 0 then 0
    else (if x % 2 == 1 || y % 2 == 1 then 1 else 0) + 2 * Or(x / 2, y / 2)
  }

  lemma {:induction false} OrZero(y: nat)
    ensures Or(0, y) == y
  {
    if y > 0 {
      OrZero(y / 2);
    }
  }

  /** Or-ing in bits above those of x adds them. */
  lemma {:induction false} OrDisjoint(x: nat, y: nat, l: nat)
    requires x < Pow2(l)
    ensures Or(x, Pow2(l) * y) == x + Pow2(l) * y
  {
    if l == 0 {
      OrZero(y);
    } else {
      MulAssoc(2, Pow2(l - 1), y);
      OrDisjoint(x / 2, y, l - 1);
    }
  }

  // ----- sequences of digits -----

  /** Every element fits w bits. */
  predicate Fits(w: nat, s: seq<int>) { forall i :: 0 <= i < |s| ==> 0 <= s[i] < Pow2(w) }

  /** The number whose base 2^w digits, least significant first, are s. */
  function Val(w: nat, s: seq<int>): (v: nat)
    requires Fits(w, s)
  {
    if s == [] then 0 else s[0] + Pow2(w) * Val(w, s[1..])
  }

  lemma ValStep(w: nat, s: seq<int>)
    requires Fits(w, s) && s != []
    ensures Fits(w, s[1..]) && Val(w, s) == s[0] + Pow2(w) * Val(w, s[1..])
  {
    hide Pow2;
  }

  lemma ValEmpty(w: nat)
    ensures Fits(w, []) && Val(w, []) == 0
  {
  }

  lemma {:induction false} ValConcat(w: nat, s: seq<int>, t: seq<int>)
    requires Fits(w, s) && Fits(w, t)
    ensures Fits(w, s + t) && Val(w, s + t) == Val(w, s) + Pow2(Bits(w, |s|)) * Val(w, t)
  {
    hide Pow2, Val, Bits;
    if s == [] {
      assert s + t == t;
      ValEmpty(w);
      Pow2OfNoBits(w);
    } else {
      assert (s + t)[1..] == s[1..] + t && (s + t)[0] == s[0];
      ValConcat(w, s[1..], t);
      ValStep(w, s);
      ValStep(w, s + t);
      Pow2Step(w, |s| - 1);
      var a, b, v := Pow2(w), Pow2(Bits(w, |s| - 1)), Val(w, t);
      MulDistributes(a, Val(w, s[1..]), b * v);
      MulAssoc(a, b, v);
    }
  }

  lemma Pow2OfNoBits(w: nat)
    ensures Pow2(Bits(w, 0)) == 1
  {
  }

  lemma {:induction false} ValBound(w: nat, s: seq<int>)
    requires Fits(w, s)
    ensures Val(w, s) < Pow2(Bits(w, |s|))
  {
    hide Pow2, Val, Bits;
    if s == [] {
      ValEmpty(w);
    } else {
      ValStep(w, s);
      ValBound(w, s[1..]);
      Pow2Step(w, |s| - 1);
      var a, b, v := Pow2(w), Pow2(Bits(w, |s| - 1)), Val(w, s[1..]);
      MulMonotone(a, v + 1, b);
      MulDistributes(a, v, 1);
    }
  }

  lemma ValSingle(w: nat, x: int)
    requires 0 <= x < Pow2(w)
    ensures Fits(w, [x]) && Val(w, [x]) == x
  {
    hide Pow2, Val;
    ValStep(w, [x]);
    ValEmpty(w);
    assert [x][1..] == [];
  }

  /** The n lowest base 2^w digits of a number. */
  function Digits(w: nat, n: nat, v: nat): (s: seq<int>)
    ensures |s| == n
  {
    if n == 0 then [] else [Low(v, w)] + Digits(w, n - 1, Shr(v, w))
  }

  lemma {:induction false} DigitsFit(w: nat, n: nat, v: nat)
    ensures Fits(w, Digits(w, n, v))
  {
    hide Pow2, Shr, Low;
    if n > 0 {
      ShrLow(v, w);
      DigitsFit(w, n - 1, Shr(v, w));
    }
  }

  lemma {:induction false} DigitsAt(w: nat, n: nat, v: nat, k: nat)
    requires k < n
    ensures Digits(w, n, v)[k] == Low(Shr(v, Bits(w, k)), w)
  {
    hide Pow2, Shr, Low, Bits;
    if k == 0 {
      ShrZero(v);
      BitsStep(w, 0);
    } else {
      DigitsAt(w, n - 1, Shr(v, w), k - 1);
      ShrShr(v, w, Bits(w, k - 1));
      BitsStep(w, k - 1);
    }
  }

  lemma ShrZero(v: nat)
    ensures Shr(v, 0) == v
  {
    assert Pow2(0) == 1;
  }

  /** A sequence is the digits of its value. */
  lemma {:induction false} DigitsOfVal(w: nat, s: seq<int>)
    requires Fits(w, s)
    ensures Digits(w, |s|, Val(w, s)) == s
  {
    hide Pow2, Shr, Low, Val;
    if s != [] {
      ValStep(w, s);
      DigitsOfVal(w, s[1..]);
      ShrUnique(Val(w, s), w, Val(w, s[1..]), s[0]);
    }
  }

  /** The digits of a value below 2^(w n) have that value. */
  lemma {:induction false} ValOfDigits(w: nat, n: nat, v: nat)
    requires v < Pow2(Bits(w, n))
    ensures Fits(w, Digits(w, n, v)) && Val(w, Digits(w, n, v)) == v
  {
    hide Pow2, Shr, Low, Val, Bits;
    DigitsFit(w, n, v);
    if n == 0 {
      ValEmpty(w);
      Pow2OfNoBits(w);
    } else {
      var d := Digits(w, n, v);
      BitsStep(w, n - 1);
      ShrBound(v, w, Bits(w, n - 1));
      ValOfDigits(w, n - 1, Shr(v, w));
      assert d[1..] == Digits(w, n - 1, Shr(v, w));
      ValStep(w, d);
      ShrLow(v, w);
    }
  }

  /** s, a sequence of inw-bit words, cut into n words of outw bits. */
  function Recoded(inw: nat, outw: nat, n: nat, s: seq<int>): (t: seq<int>)
    requires Fits(inw, s)
    ensures |t| == n && Fits(outw, t)
  {
    DigitsFit(outw, n, Val(inw, s));
    Digits(outw, n, Val(inw, s))
  }

  /** Cutting one way and back gives the words back, whenever no bit is left over. */
  lemma RecodeRoundTrip(inw: nat, outw: nat, n: nat, s: seq<int>)
    requires Fits(inw, s) && Bits(outw, n) == Bits(inw, |s|)
    ensures Recoded(outw, inw, |s|, Recoded(inw, outw, n, s)) == s
  {
    hide Pow2, Val, Digits, Bits;
    ValBound(inw, s);
    ValOfDigits(outw, n, Val(inw, s));
    DigitsOfVal(inw, s);
  }

  // ----- the cursor -----

  /** The words from ptr on, shifted down by bts bits. */
  function Rest(w: nat, s: seq<int>, ptr: nat, bts: nat): (v: nat)
    requires Fits(w, s) && ptr <= |s|
  {
    Shr(Val(w, s[ptr..]), bts)
  }

  /** A cursor at bit position w * ptr + bts sees the value shifted down by that many bits. */
  lemma RestIsShift(w: nat, s: seq<int>, ptr: nat, bts: nat)
    requires Fits(w, s) && ptr <= |s|
    ensures Rest(w, s, ptr, bts) == Shr(Val(w, s), Bits(w, ptr) + bts)
  {
    hide Pow2, Val, Bits, Shr, Low;
    assert s == s[..ptr] + s[ptr..];
    ValConcat(w, s[..ptr], s[ptr..]);
    ValBound(w, s[..ptr]);
    ShrUnique(Val(w, s), Bits(w, ptr), Val(w, s[ptr..]), Val(w, s[..ptr]));
    ShrShr(Val(w, s), Bits(w, ptr), bts);
  }

  /** One more word, or-ed in above the got bits already there. */
  lemma TakeWord(w: nat, s: seq<int>, ptr: nat, bts: nat, i: nat, got: nat)
    requires Fits(w, s) && ptr + i + 1 < |s| && bts + got == Bits(w, i + 1)
    ensures Or(Rest(w, s[..ptr + i + 1], ptr, bts), Pow2(got) * s[ptr + i + 1]) == Rest(w, s[..ptr + i + 2], ptr, bts)
  {
    hide Pow2, Val, Or, Bits, Shr, Low;
    var p, x := s[..ptr + i + 1][ptr..], s[ptr + i + 1];
    assert s[..ptr + i + 2][ptr..] == p + [x];
    ValSingle(w, x);
    ValConcat(w, p, [x]);
    ValBound(w, p);
    ShrBound(Val(w, p), bts, got);
    OrDisjoint(Shr(Val(w, p), bts), x, got);
    ShrAdd(Val(w, p), x, bts, got);
  }

  /** Words beyond the first got >= out bits do not reach the low out bits. */
  lemma LowBits(w: nat, s: seq<int>, ptr: nat, bts: nat, i: nat, got: nat, out: nat)
    requires Fits(w, s) && ptr + i < |s| && bts + got == Bits(w, i + 1) && got >= out
    ensures Low(Rest(w, s[..ptr + i + 1], ptr, bts), out) == Low(Rest(w, s, ptr, bts), out)
  {
    hide Pow2, Val, Bits, Shr, Low;
    var p, t := s[..ptr + i + 1][ptr..], s[ptr + i + 1..];
    assert s[ptr..] == p + t;
    ValConcat(w, p, t);
    ShrAdd(Val(w, p), Val(w, t), bts, got);
    ShrAdd(Shr(Val(w, p), bts), Val(w, t), out, got - out);
  }

  lemma FirstWord(w: nat, s: seq<int>, ptr: nat, bts: nat)
    requires Fits(w, s) && ptr < |s|
    ensures Shr(s[ptr], bts) == Rest(w, s[..ptr + 1], ptr, bts)
  {
    hide Pow2, Val, Shr;
    assert s[..ptr + 1][ptr..] == [s[ptr]];
    ValSingle(w, s[ptr]);
  }

  /**
   nextbyte* (inw = ab, outw = 8) and nextword (inw = 8, outw = ab): the next outw bits of s at the cursor,
   which moves on by outw. Narrow registers of the source only lose bits above outw, dropped at the end anyway.
   */
  method NextChunk(inw: nat, outw: nat, s: seq<int>, ptr: nat, bts: nat) returns (r: nat, ptr': nat, bts': nat)
    requires inw > 0 && Fits(inw, s) && bts < inw && Bits(inw, ptr) + bts + outw <= Bits(inw, |s|) && outw > 0
    ensures r == Low(Shr(Val(inw, s), Bits(inw, ptr) + bts), outw)
    ensures Bits(inw, ptr') + bts' == Bits(inw, ptr) + bts + outw && bts' < inw
  {
    hide Pow2, Val, Or, Rest, Shr, Low, Bits;
    BitsLess(inw, ptr, |s|);
    FirstWord(inw, s, ptr, bts);
    BitsStep(inw, 0);
    var got := inw - bts;
    r := Shr(s[ptr], bts);
    var i := 0;
    while got < outw
      invariant ptr + i < |s| && bts + got == Bits(inw, i + 1)
      invariant r == Rest(inw, s[..ptr + i + 1], ptr, bts)
      decreases outw - got
    {
      BitsAdd(inw, ptr, i + 1);
      BitsLess(inw, ptr + (i + 1), |s|);
      TakeWord(inw, s, ptr, bts, i, got);
      BitsStep(inw, i + 1);
      i := i + 1;
      r := Or(r, Pow2(got) * s[ptr + i]);
      got := got + inw;
    }
    LowBits(inw, s, ptr, bts, i, got, outw);
    RestIsShift(inw, s, ptr, bts);
    r := Low(r, outw);
    ptr', bts' := Advance(inw, ptr, bts + outw);
  }

  /** The loop that carries whole words of w bits from the bit counter into the pointer. */
  method Advance(w: nat, ptr: nat, bts: nat) returns (ptr': nat, bts': nat)
    requires w > 0
    ensures Bits(w, ptr') + bts' == Bits(w, ptr) + bts && bts' < w
  {
    hide Bits;
    ptr', bts' := ptr, bts;
    while bts' >= w
      invariant Bits(w, ptr') + bts' == Bits(w, ptr) + bts
    {
      BitsStep(w, ptr');
      bts' := bts' - w;
      ptr' := ptr' + 1;
    }
  }

  /** Repeated NextChunk: n words of outw bits, and the pointer reached. */
  method Recode(inw: nat, outw: nat, n: nat, s: seq<int>) returns (t: seq<int>, ptr: nat)
    requires inw > 0 && outw > 0 && Fits(inw, s) && Bits(outw, n) <= Bits(inw, |s|)
    ensures t == Recoded(inw, outw, n, s)
    ensures Bits(inw, ptr) <= Bits(outw, n) < Bits(inw, ptr) + inw
  {
    hide Pow2, Val, Digits, Bits, Shr, Low;
    t := [];
    ptr := 0;
    var bts := 0;
    BitsStep(inw, 0);
    BitsStep(outw, 0);
    for k := 0 to n
      invariant |t| == k && Bits(inw, ptr) + bts == Bits(outw, k) && 0 <= bts < inw
      invariant forall j :: 0 <= j < k ==> t[j] == Recoded(inw, outw, n, s)[j]
    {
      BitsLess(outw, k + 1, n);
      BitsStep(outw, k);
      DigitsAt(outw, n, Val(inw, s), k);
      var c;
      c, ptr, bts := NextChunk(inw, outw, s, ptr, bts);
      t := t + [c];
    }
  }
}
