/** Signed Montgomery and Barrett reduction of kyber.rs, with R = 2^16. */
module KyberArith {
  import opened Congruence
  import opened KyberTables

  type I16 = x: int | -0x8000 <= x < 0x8000
  type I32 = x: int | -0x8000_0000 <= x < 0x8000_0000

  const QINV: int := -3327      // 1 / Q mod 2^16
  const ONE: int := 0x549       // R^2 mod Q
  const BARC: int := 20159      // 2^26 / Q, rounded
  const TWO25: int := 0x200_0000

  /** The low 16 bits of v read as an i16. */
  function AsI16(v: int): (r: I16) { if v % R >= 0x8000 then v % R - R else v % R }

  /** montgomery_reduce: a / R modulo Q, in (-Q, Q) for |a| <= 2^15 Q. */
  function MontgomeryReduce(a: int): (t: I16)
    requires -2_000_000_000 <= a <= 2_000_000_000
  {
    var dt := AsI16((a % R) * QINV);
    (a - dt * Q) / R
  }

  lemma LowBitsCancel(a: int, h: int, l: int, dt: int, k: int)
    requires a == 0x1_0000 * h + l && dt == -3327 * l - 0x1_0000 * k
    ensures a - dt * 3329 == 0x1_0000 * (h + 169 * l + 3329 * k)
  {
  }

  lemma MontgomeryExact(a: int)
    ensures (a - AsI16((a % R) * QINV) * Q) % R == 0
  {
    var h, l := a / R, a % R;
    var v := l * QINV;
    var dt := AsI16(v);
    var k := if v % R >= 0x8000 then v / R + 1 else v / R;
    assert v == R * (v / R) + v % R;
    LowBitsCancel(a, h, l, dt, k);
    MultipleOfR(h + 169 * l + 3329 * k);
  }

  lemma MultipleOfR(n: int)
    ensures (0x1_0000 * n) % R == 0
  {
  }

  predicate Within(a: int, m: int) { -m <= a <= m }

  lemma MontgomerySpec(a: int, m: int)
    requires Within(a, m) && m <= 2_000_000_000
    ensures Cong(MontgomeryReduce(a), a * RINV, Q)
    ensures Within(MontgomeryReduce(a) * R, m + 0x8000 * Q)
  {
    hide Cong;
    MontgomeryExact(a);
    var dt, t := AsI16((a % R) * QINV), MontgomeryReduce(a);
    assert t * R == a - dt * Q;
    CongIntro(t * R, a, Q, -dt);
    CongScale(RINV, t * R, a, Q);
    CongIntro(R * RINV, 1, Q, (R * RINV - 1) / Q);
    CongScale(t, R * RINV, 1, Q);
    CongSym(t * (R * RINV), t, Q);
    assert t * (R * RINV) == RINV * (t * R);
    CongTrans(t, t * (R * RINV), RINV * a, Q);
  }

  /** barrett_reduce: the centred residue, computed in i16 as long as t * Q fits. */
  function BarrettReduce(a: int): (r: I16)
    requires -31625 <= a <= 31625
  {
    var t: I16 := (BARC * a + TWO25) / 0x400_0000;
    var tq: I16 := t * Q;
    a - tq
  }

  lemma BarrettSpec(a: int)
    requires -31625 <= a <= 31625
    ensures -1664 <= BarrettReduce(a) <= 1664 && Cong(BarrettReduce(a), a, Q)
  {
    hide Cong;
    var t := (BARC * a + TWO25) / 0x400_0000;
    BarrettQuotient(a, t);
    CongIntro(BarrettReduce(a), a, Q, -t);
  }

  lemma BarrettQuotient(a: int, t: int)
    requires -31625 <= a <= 31625 && 0x400_0000 * t <= BARC * a + TWO25 < 0x400_0000 * (t + 1)
    ensures -9 <= t <= 9 && -1664 <= a - t * Q <= 1664
  {
  }

  /** The argument of barrett_reduce cannot be any larger: at 31626 the product t * Q leaves i16. */
  lemma BarrettLimit()
    ensures ((BARC * 31626 + TWO25) / 0x400_0000) * Q > 0x7FFF
  {
  }

  /** fqmul: Montgomery product of two i16 values. */
  function Fqmul(a: I16, b: I16): (r: I16)
  {
    ProductFits(a, b);
    MontgomeryReduce(a * b)
  }

  lemma ProductFits(a: I16, b: I16)
    ensures -2_000_000_000 <= a * b <= 2_000_000_000
  {
    ProductSize(a, b, 0x8000, 0x8000);
  }

  lemma ProductSize(a: int, b: int, ma: int, mb: int)
    requires Within(a, ma) && Within(b, mb)
    ensures Within(a * b, ma * mb)
  {
    assert ma * b <= ma * mb && -(ma * mb) <= ma * b;
    if b >= 0 {
      assert a * b <= ma * b && -(ma * b) <= a * b;
    } else {
      assert a * -b <= ma * -b && -(ma * -b) <= a * -b;
    }
  }

  /** For |a| <= ma and |b| <= mb the Montgomery product is at most (ma mb + 2^15 Q) / R in size. */
  lemma FqmulSpec(a: I16, b: I16, ma: int, mb: int)
    requires Within(a, ma) && Within(b, mb) && ma * mb <= 2_000_000_000
    ensures Cong(Fqmul(a, b), (a * b) * RINV, Q)
    ensures Within(Fqmul(a, b) * R, ma * mb + 0x8000 * Q)
  {
    hide Cong, MontgomeryReduce;
    ProductSize(a, b, ma, mb);
    MontgomerySpec(a * b, ma * mb);
  }
}
