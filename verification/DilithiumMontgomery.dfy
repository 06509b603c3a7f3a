/** Montgomery reduction with R = 2^32 (dilithium.rs, redc, nres and modmul). */
module DilithiumMontgomery {
  import opened Congruence
  import opened DilithiumTables

  type I32 = x: int | -0x8000_0000 <= x < 0x8000_0000

  const ONE: int := 0x3FFE00     // R mod Q
  const COMBO: int := 0xA3FA     // R^2 / 256 mod Q
  const ND: int := 0xFC7FDFFF    // 1 / (R - Q) mod R
  const R2MODP: int := 0x2419FF  // R^2 mod Q

  /** The largest argument for which the u64 sum and the cast of the result to i32 are exact. */
  const REDC_MAX: int := 0x7F80_0000_0000_0000

  /** t / R modulo Q: adds the multiple of Q that clears the low 32 bits, then drops them. */
  function Redc(t: int): (r: I32)
    requires 0 <= t <= REDC_MAX
    ensures r >= 0
  {
    var m := ((t % R) * ND) % R;
    (m * Q + t) / R
  }

  /**
   The value of redc for any argument. For a negative one, which casts to a u64 above 2^63, this is what wrapping arithmetic and the
   cast of the upper half to i32 give.
   */
  function RedcValue(t: int): (v: int) { ((((t % R) * ND) % R) * Q + t) / R }

  lemma RedcValueSpec(t: int)
    ensures Cong(RedcValue(t), t * RINV, Q)
    ensures t <= RedcValue(t) * R < t + Q * R
  {
    hide Cong;
    RedcExact(t);
    var m := ((t % R) * ND) % R;
    var r := RedcValue(t);
    assert r * R == m * Q + t;
    CongIntro(r * R, t, Q, m);
    CongScale(RINV, r * R, t, Q);
    CongIntro(R * RINV, 1, Q, (R * RINV - 1) / Q);
    CongScale(r, R * RINV, 1, Q);
    CongSym(r * (R * RINV), r, Q);
    assert r * (R * RINV) == RINV * (r * R);
    CongTrans(r, r * (R * RINV), RINV * t, Q);
    assert 0 <= m < R;
  }

  lemma RedcHasValue(t: int)
    requires 0 <= t <= REDC_MAX
    ensures Redc(t) == RedcValue(t)
  {
  }

  lemma RedcExact(t: int)
    ensures (((t % R) * ND) % R * Q + t) % R == 0
  {
    var l, h := t % R, t / R;
    var m, k := (l * ND) % R, (l * ND) / R;
    var c := (ND * Q + 1) / R;
    assert ND * Q + 1 == c * R;
    assert t == h * R + l && l * ND == k * R + m;
    ClearsLowBits(t, h, l, m, k, c);
    MultipleOfR(l * c - k * Q + h);
  }

  lemma ClearsLowBits(t: int, h: int, l: int, m: int, k: int, c: int)
    requires t == h * R + l && l * ND == k * R + m && ND * Q + 1 == c * R
    ensures m * Q + t == (l * c - k * Q + h) * R
  {
    assert m * Q == l * ND * Q - k * Q * R;
    assert l * (ND * Q + 1) == l * c * R;
  }

  lemma MultipleOfR(n: int)
    ensures (n * R) % R == 0
  {
  }

  /** redc divides by R modulo Q, and its result is below Q plus t / R. */
  lemma RedcSpec(t: int)
    requires 0 <= t <= REDC_MAX
    ensures Cong(Redc(t) * R, t, Q)
    ensures Cong(Redc(t), t * RINV, Q)
    ensures Redc(t) * R < t + Q * R
  {
    hide Cong;
    RedcExact(t);
    var m := ((t % R) * ND) % R;
    var r := Redc(t);
    assert r * R == m * Q + t;
    CongIntro(r * R, t, Q, m);
    CongScale(RINV, r * R, t, Q);
    CongIntro(R * RINV, 1, Q, (R * RINV - 1) / Q);
    CongScale(r, R * RINV, 1, Q);
    CongSym(r * (R * RINV), r, Q);
    assert r * (R * RINV) == RINV * (r * R);
    CongTrans(r, r * (R * RINV), RINV * t, Q);
  }

  /** a * b / R modulo Q. */
  function Modmul(a: int, b: int): (r: I32)
    requires 0 <= a && 0 <= b && 0 <= a * b <= REDC_MAX
    ensures r >= 0
  {
    Redc(a * b)
  }

  lemma ModmulHasValue(a: int, b: int)
    requires 0 <= a && 0 <= b && 0 <= a * b <= REDC_MAX
    ensures Modmul(a, b) == RedcValue(a * b)
  {
    hide Redc, RedcValue;
    RedcHasValue(a * b);
  }

  /** For a < 512 Q and b < Q the product is exact in u64 and the result below 2 Q. */
  lemma ModmulSpec(a: int, b: int)
    requires 0 <= a < 512 * Q && 0 <= b < Q
    ensures 0 <= a * b <= REDC_MAX
    ensures Cong(Modmul(a, b), (a * b) * RINV, Q)
    ensures 0 <= Modmul(a, b) < 2 * Q
  {
    hide Cong, Redc;
    assert a * b <= (512 * Q) * b <= (512 * Q) * Q;
    assert a * b >= 0;
    RedcSpec(a * b);
    assert (512 * Q) * Q < Q * R;
  }

  /** Two operands below 18 Q, as `ntt` leaves them, may be multiplied without reducing them first. */
  lemma ModmulLazy(a: int, b: int)
    requires 0 <= a < 18 * Q && 0 <= b < 18 * Q
    ensures 0 <= a * b <= REDC_MAX
    ensures Cong(Modmul(a, b), (a * b) * RINV, Q)
    ensures 0 <= Modmul(a, b) < 2 * Q && 1000 * Modmul(a, b) < 1633 * Q
  {
    hide Cong, Redc;
    assert a * b <= (18 * Q) * b <= (18 * Q) * (18 * Q);
    assert a * b >= 0;
    RedcSpec(a * b);
    assert (18 * Q) * (18 * Q) < Q * R;
    assert 1000 * ((18 * Q) * (18 * Q)) < 633 * (Q * R);
  }

  /** Conversion into Montgomery form. */
  function Nres(x: int): (r: I32)
    requires 0 <= x < 512 * Q
    ensures 0 <= r < 2 * Q
  {
    ModmulSpec(x, R2MODP);
    Redc(x * R2MODP)
  }

  lemma NresSpec(x: int)
    requires 0 <= x < 512 * Q
    ensures Cong(Nres(x), x * R, Q)
  {
    hide Cong;
    ModmulSpec(x, R2MODP);
    CongIntro(R2MODP * RINV, R, Q, (R2MODP * RINV - R) / Q);
    CongScale(x, R2MODP * RINV, R, Q);
    assert (x * R2MODP) * RINV == x * (R2MODP * RINV);
    CongTrans(Nres(x), x * (R2MODP * RINV), x * R, Q);
  }

  /** (x >> 31) & Q for an i32 x: Q if x is negative, else 0. */
  function SignMask(x: I32): (m: int) { if x < 0 then Q else 0 }
}
