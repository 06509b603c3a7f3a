/** Length-prefixed framing of protocol.rs: LEB128 prefixes, encode, and decode over an accumulating buffer. */
module Framing {
  import opened BitStream

  type Byte = x: int | 0 <= x < 256
  const U64: nat := 0x1_0000_0000_0000_0000

  // ----- the prefix -----

  /** Unsigned LEB128: seven bits a byte, the high bit set on all but the last. */
  function Uvarint(v: nat): (s: seq<Byte>)
    ensures |s| > 0
  {
    if v < 128 then [v] else [v % 128 + 128] + Uvarint(v / 128)
  }

  /** put_uvarint. */
  method PutUvarint(v: nat, dst: seq<Byte>) returns (r: seq<Byte>)
    ensures r == dst + Uvarint(v)
  {
    r := dst;
    var value := v;
    while true
      invariant r + Uvarint(value) == dst + Uvarint(v)
      decreases value
    {
      var byte: Byte := value % 128;
      var rest := value / 128;
      if rest != 0 {
        byte := byte + 128;
      }
      r := r + [byte];
      if rest == 0 {
        break;
      }
      value := rest;
    }
  }

  datatype Peeked = Malformed | Incomplete | Value(value: nat, used: nat)

  /** The loop of peek_uvarint from byte i on; bits shifted beyond 64 are lost. */
  function PeekFrom(buf: seq<Byte>, i: nat, value: nat): (p: Peeked)
    requires i <= |buf|
    decreases |buf| - i
  {
    if i == |buf| then Incomplete
    else if i >= 10 then Malformed
    else
      var next := value + Low((buf[i] % 128) * Pow2(7 * i), 64);
      if buf[i] < 128 then Value(next, i + 1) else PeekFrom(buf, i + 1, next)
  }

  function Peek(buf: seq<Byte>): (p: Peeked) { PeekFrom(buf, 0, 0) }

  /** peek_uvarint: reads without consuming. */
  method PeekUvarint(buf: seq<Byte>) returns (p: Peeked)
    ensures p == Peek(buf)
    ensures p.Incomplete? <==> |buf| <= 10 && AllContinue(buf)
    ensures p.Malformed? <==> |buf| > 10 && AllContinue(buf[..10])
    ensures p.Value? ==>
      && 1 <= p.used <= |buf| && p.used <= 10 && AllContinue(buf[..p.used - 1]) && buf[p.used - 1] < 128
      && p.value == Low(Val(7, Sevens(buf[..p.used])), 64)
  {
    hide Pow2, Low, Or, Val;
    ValEmpty(7);
    PeekKind(buf, 0, 0);
    PeekExact(buf, 0, 0);
    var value: nat, shift: nat := 0, 0;
    Pow2Zero();
    for i := 0 to |buf|
      invariant i <= 10 && shift == 7 * i && value < Pow2(shift)
      invariant Peek(buf) == PeekFrom(buf, i, value)
    {
      if i >= 10 {
        return Malformed;
      }
      var bits := Low((buf[i] % 128) * Pow2(shift), 64);
      OrBits(value, buf[i] % 128, shift);
      value := Or(value, bits);
      if buf[i] < 128 {
        return Value(value, i + 1);
      }
      shift := shift + 7;
    }
    p := Incomplete;
  }

  lemma Pow2Zero()
    ensures Pow2(0) == 1
  {
  }

  /** Seven more bits: they do not overlap those already there, even when the top is cut off at 64. */
  lemma OrBits(value: nat, b: nat, shift: nat)
    requires value < Pow2(shift) && b < 128 && shift <= 63
    ensures Or(value, Low(b * Pow2(shift), 64)) == value + Low(b * Pow2(shift), 64) < Pow2(shift + 7)
  {
    hide Pow2, Low, Or, Shr;
    var k := Low(b, 64 - shift);
    LowOfShifted(b, shift);
    OrDisjoint(value, k, shift);
    LowAtMost(b, 64 - shift);
    Pow2Add(shift, 7);
    Pow2Seven();
    var p := Pow2(shift);
    MulMonotone(p, k + 1, 128);
    MulDistributes(p, k, 1);
  }

  lemma LowOfShifted(b: nat, shift: nat)
    requires shift <= 63
    ensures Low(b * Pow2(shift), 64) == Pow2(shift) * Low(b, 64 - shift)
  {
    hide Pow2, Low, Shr;
    ShrLow(b, 64 - shift);
    Pow2Add(shift, 64 - shift);
    var p, r, h, k := Pow2(shift), Pow2(64 - shift), Shr(b, 64 - shift), Low(b, 64 - shift);
    Distributed(p, r, h, k);
    MulMonotone(p, k + 1, r);
    MulDistributes(p, k, 1);
    ShrUnique(b * p, 64, h, p * k);
  }

  lemma Distributed(p: int, r: int, h: int, k: int)
    ensures (r * h + k) * p == (p * r) * h + p * k
  {
    MulDistributes(p, r * h, k);
    MulAssoc(p, r, h);
  }

  lemma LowAtMost(b: nat, n: nat)
    ensures Low(b, n) <= b
  {
    hide Pow2;
  }

  lemma Pow2One()
    ensures Pow2(1) == 2
  {
  }

  lemma Pow2Seven()
    ensures Pow2(7) == 128
  {
    assert Pow2(3) == 8;
    Pow2Add(3, 3);
    assert Pow2(7) == 2 * Pow2(6);
  }

  lemma {:induction false} Pow2Monotone(a: nat, b: nat)
    requires a <= b
    ensures Pow2(a) <= Pow2(b)
  {
    if a < b {
      Pow2Monotone(a, b - 1);
    }
  }

  lemma LowSame(x: nat, n: nat)
    requires x < Pow2(n)
    ensures Low(x, n) == x
  {
    hide Pow2;
  }

  /** Reading a prefix written at byte i, the i bytes before it having given acc. */
  lemma {:induction false} PeekOfUvarint(buf: seq<Byte>, i: nat, acc: nat, v: nat, rest: seq<Byte>)
    requires i <= |buf| && buf[i..] == Uvarint(v) + rest
    requires v * Pow2(7 * i) < Pow2(64) && (i == 0 || v > 0)
    ensures PeekFrom(buf, i, acc) == Value(acc + v * Pow2(7 * i), i + |Uvarint(v)|)
    decreases v
  {
    hide Pow2, Low, Uvarint;
    PositionBound(v, i);
    UvarintStep(v);
    assert buf[i] == buf[i..][0] == Uvarint(v)[0];
    var p := Pow2(7 * i);
    if v < 128 {
      LowSame(v * p, 64);
    } else {
      var d, m := v / 128, v % 128;
      assert buf[i + 1..] == buf[i..][1..] == Uvarint(d) + rest;
      NextPower(i);
      SplitProduct(v, p);
      LowSame(m * p, 64);
      PeekOfUvarint(buf, i + 1, acc + m * p, d, rest);
    }
  }

  lemma UvarintStep(v: nat)
    ensures Uvarint(v) == if v < 128 then [v] else [v % 128 + 128] + Uvarint(v / 128)
  {
  }

  lemma NextPower(i: nat)
    ensures Pow2(7 * (i + 1)) == Pow2(7 * i) * 128
  {
    hide Pow2;
    Pow2Add(7 * i, 7);
    Pow2Seven();
  }

  lemma SplitProduct(v: nat, p: nat)
    ensures v * p == (v / 128) * (p * 128) + (v % 128) * p
    ensures (v / 128) * (p * 128) >= 0 && (v % 128) * p >= 0
  {
    var d, m := v / 128, v % 128;
    assert v == d * 128 + m;
    MulDistributes(p, d * 128, m);
    assert p * (d * 128) == d * (p * 128);
  }

  lemma PositionBound(v: nat, i: nat)
    requires v * Pow2(7 * i) < Pow2(64) && (i == 0 || v > 0)
    ensures i < 10
  {
    hide Pow2;
    if i >= 10 {
      MulMonotone(Pow2(7 * i), 1, v);
      Pow2Monotone(64, 7 * i);
      assert false;
    }
  }

  lemma Pow2OfU64()
    ensures Pow2(64) == U64
  {
    hide Pow2;
    Pow2Seven();
    Pow2Add(7, 7);
    Pow2Add(14, 14);
    Pow2Add(28, 28);
    Pow2Add(56, 7);
    Pow2Add(63, 1);
    Pow2One();
  }

  /** peek_uvarint undoes put_uvarint, whatever follows. */
  lemma PeekRoundTrip(v: nat, rest: seq<Byte>)
    requires v < U64
    ensures Peek(Uvarint(v) + rest) == Value(v, |Uvarint(v)|)
  {
    hide Pow2, Low;
    Pow2Zero();
    Pow2OfU64();
    var buf := Uvarint(v) + rest;
    assert buf[0..] == buf;
    PeekOfUvarint(buf, 0, 0, v, rest);
  }

  /** The low seven bits of every byte. */
  function Sevens(s: seq<Byte>): (t: seq<int>)
    ensures |t| == |s| && Fits(7, t)
  {
    Pow2Seven();
    seq(|s|, i requires 0 <= i < |s| => s[i] % 128)
  }

  /** An answer with a value: the bytes up to the first without the high bit, at most ten, as base 128 digits modulo 2^64. */
  lemma {:induction false} PeekExact(buf: seq<Byte>, i: nat, acc: nat)
    requires i <= |buf| && i <= 10 && AllContinue(buf[..i]) && acc == Val(7, Sevens(buf[..i]))
    ensures PeekFrom(buf, i, acc).Value? ==>
      var (n, used) := (PeekFrom(buf, i, acc).value, PeekFrom(buf, i, acc).used);
      && 1 <= used <= |buf| && used <= 10 && AllContinue(buf[..used - 1]) && buf[used - 1] < 128
      && n == Low(Val(7, Sevens(buf[..used])), 64)
    decreases |buf| - i
  {
    hide Pow2, Low, Val;
    if i < |buf| && i < 10 {
      PeekDigit(buf, i, acc);
      if buf[i] >= 128 && i < 9 {
        assert buf[..i + 1] == buf[..i] + [buf[i]];
        PeekExact(buf, i + 1, Val(7, Sevens(buf[..i + 1])));
      } else if buf[i] >= 128 {
        NoEleventh(buf, acc + Low((buf[i] % 128) * Pow2(7 * i), 64));
      }
    }
  }

  lemma NoEleventh(buf: seq<Byte>, acc: nat)
    requires 10 <= |buf|
    ensures !PeekFrom(buf, 10, acc).Value?
  {
    hide Pow2, Low;
  }

  lemma PeekDigit(buf: seq<Byte>, i: nat, acc: nat)
    requires i < |buf| && i < 10 && acc == Val(7, Sevens(buf[..i]))
    ensures acc + Low((buf[i] % 128) * Pow2(7 * i), 64) == Low(Val(7, Sevens(buf[..i + 1])), 64)
    ensures i < 9 ==> acc + Low((buf[i] % 128) * Pow2(7 * i), 64) == Val(7, Sevens(buf[..i + 1]))
  {
    hide Pow2, Low, Val, Shr;
    var d := buf[i] % 128;
    assert Sevens(buf[..i + 1]) == Sevens(buf[..i]) + [d];
    Pow2Seven();
    ValSingle(7, d);
    ValConcat(7, Sevens(buf[..i]), [d]);
    ValBound(7, Sevens(buf[..i]));
    ValBound(7, Sevens(buf[..i + 1]));
    ShiftedSum(acc, d, 7 * i);
    if i < 9 {
      Pow2Monotone(7 * (i + 1), 64);
      LowSame(Val(7, Sevens(buf[..i + 1])), 64);
    }
  }

  lemma ShiftedSum(acc: nat, d: nat, shift: nat)
    requires acc < Pow2(shift) && shift <= 63
    ensures Low(acc + Pow2(shift) * d, 64) == acc + Low(d * Pow2(shift), 64)
  {
    hide Pow2, Low, Shr;
    LowOfShifted(d, shift);
    ShrLow(d, 64 - shift);
    Pow2Add(shift, 64 - shift);
    var p, r, h, k := Pow2(shift), Pow2(64 - shift), Shr(d, 64 - shift), Low(d, 64 - shift);
    SumParts(acc, p, r, h, k, d);
    ShrUnique(acc + p * d, 64, h, acc + p * k);
  }

  lemma SumParts(acc: nat, p: nat, r: nat, h: nat, k: nat, d: nat)
    requires d == r * h + k && k < r && acc < p
    ensures acc + p * d == (p * r) * h + (acc + p * k) && acc + p * k < p * r
  {
    MulDistributes(p, r * h, k);
    MulAssoc(p, r, h);
    MulMonotone(p, k + 1, r);
    MulDistributes(p, k, 1);
  }

  /** The prefix is as short as its value allows. */
  lemma {:induction false} UvarintWidth(v: nat, n: nat)
    requires n >= 1
    ensures |Uvarint(v)| <= n <==> v < Pow2(7 * n)
    decreases v
  {
    hide Pow2;
    NextPower(n - 1);
    Pow2Zero();
    if v < 128 {
      Pow2Monotone(0, 7 * (n - 1));
    } else if n > 1 {
      UvarintWidth(v / 128, n - 1);
    }
  }

  predicate AllContinue(s: seq<Byte>) { forall i :: 0 <= i < |s| ==> s[i] >= 128 }

  /** What the three answers mean: no last byte among at most ten, none among the first ten of more, or one. */
  lemma {:induction false} PeekKind(buf: seq<Byte>, i: nat, acc: nat)
    requires i <= |buf| && i <= 10 && AllContinue(buf[..i])
    ensures PeekFrom(buf, i, acc).Incomplete? <==> |buf| <= 10 && AllContinue(buf)
    ensures PeekFrom(buf, i, acc).Malformed? <==> |buf| > 10 && AllContinue(buf[..10])
    ensures PeekFrom(buf, i, acc).Value? ==> i < PeekFrom(buf, i, acc).used <= |buf|
    decreases |buf| - i
  {
    hide Pow2, Low;
    if i == |buf| {
      assert buf[..i] == buf;
    } else if i < 10 {
      if buf[i] < 128 {
        assert |buf| > 10 ==> buf[..10][i] == buf[i];
      } else {
        assert buf[..i + 1] == buf[..i] + [buf[i]];
        PeekKind(buf, i + 1, acc + Low((buf[i] % 128) * Pow2(7 * i), 64));
      }
    }
  }

  lemma {:induction false} UvarintContinues(v: nat, n: nat)
    requires n < |Uvarint(v)|
    ensures AllContinue(Uvarint(v)[..n])
  {
    if v >= 128 && n > 0 {
      UvarintContinues(v / 128, n - 1);
      assert Uvarint(v)[..n] == [Uvarint(v)[0]] + Uvarint(v / 128)[..n - 1];
    }
  }

  /** Every strict prefix of a written prefix is incomplete. */
  lemma PeekOfStrictPrefix(v: nat, n: nat)
    requires v < U64 && n < |Uvarint(v)|
    ensures Peek(Uvarint(v)[..n]) == Incomplete
  {
    UvarintContinues(v, n);
    PrefixWidth(v);
    PeekKind(Uvarint(v)[..n], 0, 0);
  }

  /** A u64 prefix takes at most ten bytes. */
  lemma PrefixWidth(v: nat)
    requires v < U64
    ensures |Uvarint(v)| <= 10
  {
    hide Pow2, Low;
    PeekRoundTrip(v, []);
    assert Uvarint(v) + [] == Uvarint(v);
    PeekUsed(Uvarint(v), 0, 0);
  }

  lemma {:induction false} PeekUsed(buf: seq<Byte>, i: nat, acc: nat)
    requires i <= |buf| && PeekFrom(buf, i, acc).Value?
    ensures PeekFrom(buf, i, acc).used <= 10
    decreases |buf| - i
  {
    hide Pow2, Low;
    if i < |buf| && i < 10 && buf[i] >= 128 {
      PeekUsed(buf, i + 1, acc + Low((buf[i] % 128) * Pow2(7 * i), 64));
    }
  }

  /** More bytes never change an answer other than Incomplete. */
  lemma {:induction false} PeekMonotone(buf: seq<Byte>, more: seq<Byte>, i: nat, acc: nat)
    requires i <= |buf|
    ensures !PeekFrom(buf, i, acc).Incomplete? ==> PeekFrom(buf + more, i, acc) == PeekFrom(buf, i, acc)
    decreases |buf| - i
  {
    hide Pow2, Low;
    if i < |buf| && i < 10 {
      assert (buf + more)[i] == buf[i];
      PeekMonotone(buf, more, i + 1, acc + Low((buf[i] % 128) * Pow2(7 * i), 64));
    }
  }

  // ----- frames -----

  datatype Step = NeedMore | Rejected | Frame(body: seq<Byte>, rest: seq<Byte>)

  /** One decode call on a buffer: the frame and what is left, or nothing consumed. */
  function DecodeStep(maxLength: nat, buf: seq<Byte>): (s: Step)
    ensures s.Frame? ==> |s.rest| < |buf| && |s.body| <= maxLength
  {
    hide PeekFrom;
    PeekKind(buf, 0, 0);
    match Peek(buf)
    case Malformed => Rejected
    case Incomplete => NeedMore
    case Value(n, used) =>
      if n > maxLength then Rejected
      else if |buf| < used + n then NeedMore
      else Frame(buf[used..used + n], buf[used + n..])
  }

  function Encoded(body: seq<Byte>): (s: seq<Byte>)
    ensures |s| > 0
  {
    Uvarint(|body|) + body
  }

  /** decode undoes encode and leaves the following bytes. */
  lemma DecodeOfEncode(maxLength: nat, body: seq<Byte>, rest: seq<Byte>)
    requires |body| <= maxLength < U64
    ensures DecodeStep(maxLength, Encoded(body) + rest) == Frame(body, rest)
  {
    hide PeekFrom;
    var u, n := Uvarint(|body|), |body|;
    assert Encoded(body) + rest == u + (body + rest);
    PeekRoundTrip(n, body + rest);
    var buf := u + (body + rest);
    assert buf[|u|..|u| + n] == body && buf[|u| + n..] == rest;
  }

  /** A strict prefix of a frame is never decoded and never rejected. */
  lemma DecodeOfStrictPrefix(maxLength: nat, body: seq<Byte>, n: nat)
    requires |body| <= maxLength < U64 && n < |Encoded(body)|
    ensures DecodeStep(maxLength, Encoded(body)[..n]) == NeedMore
  {
    hide PeekFrom;
    var u := Uvarint(|body|);
    if n < |u| {
      assert Encoded(body)[..n] == u[..n];
      PeekOfStrictPrefix(|body|, n);
    } else {
      assert Encoded(body)[..n] == u + body[..n - |u|];
      PeekRoundTrip(|body|, body[..n - |u|]);
    }
  }

  /** A prefix over the limit is rejected at once, whatever follows it. */
  lemma OverlongRejected(maxLength: nat, v: nat, rest: seq<Byte>)
    requires maxLength < v < U64
    ensures DecodeStep(maxLength, Uvarint(v) + rest) == Rejected
  {
    hide PeekFrom;
    PeekRoundTrip(v, rest);
  }

  /** The answers of decode, in terms of the number at the front of the buffer. */
  lemma DecodeExact(maxLength: nat, buf: seq<Byte>)
    ensures DecodeStep(maxLength, buf) == Rejected <==>
      (|buf| > 10 && AllContinue(buf[..10])) || (Peek(buf).Value? && Peek(buf).value > maxLength)
    ensures DecodeStep(maxLength, buf) == NeedMore <==>
      (|buf| <= 10 && AllContinue(buf)) || (Peek(buf).Value? && Peek(buf).value <= maxLength && |buf| < Peek(buf).used + Peek(buf).value)
    ensures forall body, rest :: DecodeStep(maxLength, buf) == Frame(body, rest) <==>
      && Peek(buf).Value? && Peek(buf).value == |body| <= maxLength && Peek(buf).used <= |buf|
      && buf == buf[..Peek(buf).used] + body + rest
  {
    hide PeekFrom;
    PeekKind(buf, 0, 0);
    if Peek(buf).Value? && Peek(buf).value <= maxLength {
      var n, used := Peek(buf).value, Peek(buf).used;
      forall body: seq<Byte>, rest: seq<Byte> | |body| == n && buf == buf[..used] + body + rest
        ensures buf[used..used + n] == body && buf[used + n..] == rest
      {
        assert (buf[..used] + body + rest)[used..used + n] == body && (buf[..used] + body + rest)[used + n..] == rest;
      }
      if used + n <= |buf| {
        assert buf == buf[..used] + buf[used..used + n] + buf[used + n..];
      }
    }
  }

  lemma StepMonotone(maxLength: nat, buf: seq<Byte>, more: seq<Byte>)
    ensures DecodeStep(maxLength, buf) == Rejected ==> DecodeStep(maxLength, buf + more) == Rejected
    ensures DecodeStep(maxLength, buf).Frame? ==>
      DecodeStep(maxLength, buf + more) == Frame(DecodeStep(maxLength, buf).body, DecodeStep(maxLength, buf).rest + more)
  {
    hide PeekFrom;
    PeekMonotone(buf, more, 0, 0);
    if Peek(buf).Value? {
      var n, used := Peek(buf).value, Peek(buf).used;
      if |buf| >= used + n {
        assert (buf + more)[used..used + n] == buf[used..used + n];
        assert (buf + more)[used + n..] == buf[used + n..] + more;
      }
    }
  }

  // ----- streams -----

  /** All frames of a stream, the undecoded remainder, and whether decode never failed. */
  datatype Drained = Drained(bodies: seq<seq<Byte>>, rest: seq<Byte>, ok: bool)

  function Drain(maxLength: nat, buf: seq<Byte>): (d: Drained)
    decreases |buf|
  {
    match DecodeStep(maxLength, buf)
    case NeedMore => Drained([], buf, true)
    case Rejected => Drained([], buf, false)
    case Frame(body, rest) =>
      var d := Drain(maxLength, rest);
      Drained([body] + d.bodies, d.rest, d.ok)
  }

  /** Draining in two parts gives what draining at once gives. */
  lemma {:induction false} DrainSplits(maxLength: nat, a: seq<Byte>, b: seq<Byte>)
    ensures Drain(maxLength, a).ok ==>
      var d := Drain(maxLength, Drain(maxLength, a).rest + b);
      Drain(maxLength, a + b) == Drained(Drain(maxLength, a).bodies + d.bodies, d.rest, d.ok)
    ensures !Drain(maxLength, a).ok ==>
      Drain(maxLength, a + b) == Drained(Drain(maxLength, a).bodies, Drain(maxLength, a).rest + b, false)
    decreases |a|
  {
    hide DecodeStep;
    StepMonotone(maxLength, a, b);
    var s := DecodeStep(maxLength, a);
    if s.Frame? {
      DecodeShrinks(maxLength, a);
      DrainSplits(maxLength, s.rest, b);
      var d := Drain(maxLength, Drain(maxLength, s.rest).rest + b);
      assert ([s.body] + Drain(maxLength, s.rest).bodies) + d.bodies == [s.body] + (Drain(maxLength, s.rest).bodies + d.bodies);
    } else if s == NeedMore {
      var d := Drain(maxLength, a + b);
      assert [] + d.bodies == d.bodies;
    }
  }

  lemma DecodeShrinks(maxLength: nat, a: seq<Byte>)
    ensures DecodeStep(maxLength, a).Frame? ==> |DecodeStep(maxLength, a).rest| < |a|
  {
    hide PeekFrom;
  }

  function Concat(chunks: seq<seq<Byte>>): (s: seq<Byte>)
  {
    if chunks == [] then [] else Concat(chunks[..|chunks| - 1]) + chunks[|chunks| - 1]
  }

  /** encode of several bodies in a row. */
  function EncodedAll(bodies: seq<seq<Byte>>): (s: seq<Byte>)
  {
    if bodies == [] then [] else Encoded(bodies[0]) + EncodedAll(bodies[1..])
  }

  predicate AllWithin(bodies: seq<seq<Byte>>, maxLength: nat) { forall i :: 0 <= i < |bodies| ==> |bodies[i]| <= maxLength }

  lemma {:induction false} DrainOfEncoded(maxLength: nat, bodies: seq<seq<Byte>>)
    requires AllWithin(bodies, maxLength) && maxLength < U64
    ensures Drain(maxLength, EncodedAll(bodies)) == Drained(bodies, [], true)
  {
    hide PeekFrom;
    if bodies == [] {
      assert Peek([]) == Incomplete by { PeekKind([], 0, 0); }
    } else {
      DecodeOfEncode(maxLength, bodies[0], EncodedAll(bodies[1..]));
      DrainOfEncoded(maxLength, bodies[1..]);
    }
  }

  /** Good frames followed by one over the limit: exactly the good ones come out, and then decode fails. */
  lemma {:induction false} DrainUntilOverlong(maxLength: nat, bodies: seq<seq<Byte>>, v: nat, rest: seq<Byte>)
    requires AllWithin(bodies, maxLength) && maxLength < v < U64
    ensures Drain(maxLength, EncodedAll(bodies) + (Uvarint(v) + rest)) == Drained(bodies, Uvarint(v) + rest, false)
  {
    hide DecodeStep, Uvarint;
    if bodies == [] {
      assert EncodedAll(bodies) + (Uvarint(v) + rest) == Uvarint(v) + rest;
      OverlongRejected(maxLength, v, rest);
    } else {
      var more := EncodedAll(bodies[1..]) + (Uvarint(v) + rest);
      assert EncodedAll(bodies) + (Uvarint(v) + rest) == Encoded(bodies[0]) + more;
      DecodeOfEncode(maxLength, bodies[0], more);
      DrainUntilOverlong(maxLength, bodies[1..], v, rest);
    }
  }

  /** The buffer a codec reads from: bytes are appended as they arrive and taken off by decode. */
  class Reader {
    const maxLength: nat
    var buffer: seq<Byte>
    /** Everything ever received, and the frames handed out so far. */
    ghost var received: seq<Byte>
    ghost var delivered: seq<seq<Byte>>

    /** Whatever the chunks were: the frames handed out are those of the whole stream so far, and none is over the limit. */
    ghost predicate Valid()
      reads this
    {
      && AllWithin(delivered, maxLength)
      && Drain(maxLength, received) ==
           var d := Drain(maxLength, buffer);
           Drained(delivered + d.bodies, d.rest, d.ok)
    }

    constructor (maxLength: nat)
      ensures Valid() && this.maxLength == maxLength && buffer == received == [] && delivered == []
    {
      this.maxLength := maxLength;
      buffer, received, delivered := [], [], [];
    }

    method Receive(chunk: seq<Byte>)
      requires Valid()
      modifies this
      ensures Valid() && received == old(received) + chunk && delivered == old(delivered) && buffer == old(buffer) + chunk
    {
      hide Drain;
      DrainSplits(maxLength, received, chunk);
      DrainSplits(maxLength, buffer, chunk);
      ghost var d, e := Drain(maxLength, buffer), Drain(maxLength, Drain(maxLength, buffer).rest + chunk);
      assert (delivered + d.bodies) + e.bodies == delivered + (d.bodies + e.bodies);
      buffer := buffer + chunk;
      received := received + chunk;
    }

    /** decode: an incomplete or rejected frame consumes nothing. */
    method Decode() returns (s: Step)
      requires Valid()
      modifies this
      ensures Valid() && received == old(received)
      ensures s == DecodeStep(maxLength, old(buffer))
      ensures s.Frame? ==> buffer == s.rest && delivered == old(delivered) + [s.body] && |s.body| <= maxLength
      ensures s.Frame? ==> Peek(old(buffer)) == Value(|s.body|, |old(buffer)| - |s.body| - |s.rest|)
      ensures s.Frame? ==> s.body + s.rest == old(buffer)[|old(buffer)| - |s.body| - |s.rest|..]
      ensures s.Rejected? <==> Peek(old(buffer)).Malformed? || (Peek(old(buffer)).Value? && Peek(old(buffer)).value > maxLength)
      ensures !s.Frame? ==> buffer == old(buffer) && delivered == old(delivered)
    {
      hide PeekFrom, AllContinue, Sevens, Val, Low;
      var p := PeekUvarint(buffer);
      match p
      case Malformed => s := Rejected;
      case Incomplete => s := NeedMore;
      case Value(n, used) =>
        if n > maxLength {
          s := Rejected;
        } else if |buffer| < used + n {
          s := NeedMore;
        } else {
          s := Frame(buffer[used..used + n], buffer[used + n..]);
          ghost var d := Drain(maxLength, s.rest);
          assert (delivered + [s.body]) + d.bodies == delivered + ([s.body] + d.bodies);
          delivered := delivered + [s.body];
          buffer := s.rest;
        }
    }
  }

  /** encode: refuses bodies over the limit, else appends prefix and body. */
  method Encode(maxLength: nat, body: seq<Byte>, dst: seq<Byte>) returns (ok: bool, r: seq<Byte>)
    ensures ok <==> |body| <= maxLength
    ensures r == if ok then dst + Encoded(body) else dst
  {
    if |body| > maxLength {
      return false, dst;
    }
    var p := PutUvarint(|body|, dst);
    r := p + body;
    assert dst + Encoded(body) == dst + Uvarint(|body|) + body;
    ok := true;
  }

  /**
   Cuts never matter: feeding chunks one by one and decoding as far as possible after each, until decode fails, yields the frames of
   the whole stream, and fails exactly if the whole stream does.
   */
  method Feed(maxLength: nat, chunks: seq<seq<Byte>>) returns (out: seq<seq<Byte>>, ok: bool)
    ensures out == Drain(maxLength, Concat(chunks)).bodies && ok == Drain(maxLength, Concat(chunks)).ok
    ensures AllWithin(out, maxLength)
  {
    hide DecodeStep, Drain;
    var r := new Reader(maxLength);
    out := [];
    DrainOfNothing(maxLength);
    for i := 0 to |chunks|
      invariant fresh(r) && r.maxLength == maxLength && r.Valid() && r.received == Concat(chunks[..i]) && r.delivered == out
      invariant Drain(maxLength, r.buffer) == Drained([], r.buffer, true)
    {
      ConcatStep(chunks, i);
      r.Receive(chunks[i]);
      out, ok := DrainReader(r, out);
      assert out + [] == out;
      if !ok {
        ConcatSplits(chunks, i + 1);
        DrainSplits(maxLength, Concat(chunks[..i + 1]), Concat(chunks[i + 1..]));
        return;
      }
    }
    assert chunks[..|chunks|] == chunks;
    assert out + [] == out;
    ok := true;
  }

  /** However the stream of encoded bodies is cut, exactly the bodies sent come out. */
  method Transfer(maxLength: nat, ghost bodies: seq<seq<Byte>>, chunks: seq<seq<Byte>>) returns (out: seq<seq<Byte>>)
    requires maxLength < U64 && AllWithin(bodies, maxLength) && Concat(chunks) == EncodedAll(bodies)
    ensures out == bodies
  {
    hide DecodeStep, Drain;
    DrainOfEncoded(maxLength, bodies);
    var ok;
    out, ok := Feed(maxLength, chunks);
  }

  lemma DrainOfNothing(maxLength: nat)
    ensures Drain(maxLength, []) == Drained([], [], true)
  {
    hide PeekFrom;
    PeekKind([], 0, 0);
  }

  lemma ConcatStep(chunks: seq<seq<Byte>>, i: nat)
    requires i < |chunks|
    ensures Concat(chunks[..i + 1]) == Concat(chunks[..i]) + chunks[i]
  {
    assert chunks[..i + 1][..i] == chunks[..i];
  }

  lemma {:induction false} ConcatSplits(chunks: seq<seq<Byte>>, i: nat)
    requires i <= |chunks|
    ensures Concat(chunks) == Concat(chunks[..i]) + Concat(chunks[i..])
    decreases |chunks|
  {
    if i == |chunks| {
      assert chunks[..i] == chunks && Concat(chunks[i..]) == [];
    } else {
      var t := chunks[..|chunks| - 1];
      ConcatSplits(t, i);
      assert t[..i] == chunks[..i] && chunks[i..][..|chunks| - i - 1] == t[i..];
    }
  }

  /** decode until it asks for more or fails. */
  method DrainReader(r: Reader, out0: seq<seq<Byte>>) returns (out: seq<seq<Byte>>, ok: bool)
    requires r.Valid() && r.delivered == out0
    modifies r
    ensures r.Valid() && r.received == old(r.received) && r.delivered == out
    ensures Drain(r.maxLength, r.buffer) == Drained([], r.buffer, ok)
  {
    hide DecodeStep;
    out := out0;
    while true
      invariant r.Valid() && r.delivered == out && r.received == old(r.received)
      decreases |r.buffer|
    {
      DecodeShrinks(r.maxLength, r.buffer);
      var s := r.Decode();
      if !s.Frame? {
        ok := s.NeedMore?;
        break;
      }
      out := out + [s.body];
    }
  }
}
