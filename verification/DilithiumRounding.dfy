/** Rounding of dilithium.rs: power2round, decompose by multiply and shift, and hints. */
module DilithiumRounding {
  import opened DilithiumTables

  /** tau, lg gamma1, divisor of gamma2, K, L, eta, bits of 2 eta, omega. */
  datatype Params = Params(tau: nat, lg: nat, dv: nat, ck: nat, el: nat, eta: nat, lg2eta1: nat, omega: nat)

  const PARAMS_2 := Params(39, 17, 88, 4, 4, 2, 3, 80)
  const PARAMS_3 := Params(49, 19, 32, 6, 5, 4, 4, 55)
  const PARAMS_5 := Params(60, 19, 32, 8, 7, 2, 3, 75)

  predicate IsParams(p: Params) { p == PARAMS_2 || p == PARAMS_3 || p == PARAMS_5 }

  predicate IsDivisor(dv: nat) { dv == 32 || dv == 88 }

  function Gamma2(dv: nat): (g: int) requires IsDivisor(dv) { (Q - 1) / dv }

  // ----- power2round -----

  function P2rHigh(r: int): (r1: int) { (r + 4095) / 8192 }

  function P2rLow(r: int): (r0: int) { r - P2rHigh(r) * 8192 }

  /** Ten bits above, a centred thirteen-bit remainder below. */
  lemma Power2RoundSpec(r: int)
    requires 0 <= r < Q
    ensures r == P2rHigh(r) * 8192 + P2rLow(r)
    ensures 0 <= P2rHigh(r) < 1024 && -4095 <= P2rLow(r) <= 4096
  {
  }

  // ----- decompose -----

  function DecomposeHi(dv: nat, a: int): (a1: int)
    requires IsDivisor(dv)
  {
    var a1 := (a + 127) / 128;
    if dv == 32 then
      ((a1 * 1025 + 0x20_0000) / 0x40_0000) % 16
    else
      var b1 := (a1 * 11275 + 0x80_0000) / 0x100_0000;
      if 43 - b1 < 0 then 0 else b1
  }

  function DecomposeLo(dv: nat, a: int): (a0: int)
    requires IsDivisor(dv)
  {
    var a0 := a - DecomposeHi(dv, a) * 2 * Gamma2(dv);
    var b0 := if (Q - 1) / 2 - a0 < 0 then a0 - Q else a0;
    if b0 < 0 then b0 + Q else b0
  }

  /** The centred form of a residue. */
  function Centred(v: int): (c: int) { if v > Q / 2 then v - Q else v }

  /** a lies in the interval that rounds to h: within gamma2 of 2 h gamma2, or just below Q when h = 0. */
  predicate RoundsTo(dv: nat, a: int, h: int)
    requires IsDivisor(dv)
  {
    || (0 <= h < dv / 2 && -Gamma2(dv) < a - h * 2 * Gamma2(dv) <= Gamma2(dv))
    || (h == 0 && -Gamma2(dv) <= a - Q < 0)
  }

  lemma RoundingConstants()
    ensures Gamma2(32) == 261888 && Gamma2(88) == 95232
    ensures 32 * Gamma2(32) == Q - 1 && 88 * Gamma2(88) == Q - 1
  {
  }

  lemma Hi32(a: int)
    requires 0 <= a < Q
    ensures RoundsTo(32, a, DecomposeHi(32, a))
  {
    var a1 := (a + 127) / 128;
    var b := (a1 * 1025 + 0x20_0000) / 0x40_0000;
    assert DecomposeHi(32, a) == b % 16;
    hide DecomposeHi;
    Quotient32(a, a1, b);
    Wrap32(a, b, b % 16);
  }

  lemma Wrap32(a: int, b: int, h: int)
    requires 0 <= a < Q && 0 <= b <= 16 && -261888 < a - b * 523776 <= 261888 && h == b % 16
    ensures RoundsTo(32, a, h)
  {
  }

  lemma Quotient32(a: int, a1: int, b: int)
    requires 0 <= a < Q && 128 * a1 <= a + 127 < 128 * a1 + 128
    requires 0x40_0000 * b <= a1 * 1025 + 0x20_0000 < 0x40_0000 * (b + 1)
    ensures 0 <= b <= 16 && -261888 < a - b * 523776 <= 261888
  {
  }

  lemma Hi88(a: int)
    requires 0 <= a < Q
    ensures RoundsTo(88, a, DecomposeHi(88, a))
  {
    var a1 := (a + 127) / 128;
    var b := (a1 * 11275 + 0x80_0000) / 0x100_0000;
    assert 0 <= b <= 44;
    assert -95232 < a - b * 190464 <= 95232;
  }

  /** A residue that is up to 20 below zero, as intt may leave it, decomposes like the canonical one. */
  lemma DecomposeBelowZero(dv: nat, a: int)
    requires IsDivisor(dv) && -21 < a < 0
    ensures DecomposeHi(dv, a) == DecomposeHi(dv, a + Q) && DecomposeLo(dv, a) == DecomposeLo(dv, a + Q)
  {
    RoundingConstants();
    assert (a + 127) / 128 == 0 && (a + Q + 127) / 128 == 65472;
    assert DecomposeHi(dv, a) == 0 && DecomposeHi(dv, a + Q) == 0;
  }

  /** The shift-and-multiply quotient is the rounded quotient. */
  lemma DecomposeHiRounds(dv: nat, a: int)
    requires IsDivisor(dv) && 0 <= a < Q
    ensures RoundsTo(dv, a, DecomposeHi(dv, a))
  {
    if dv == 32 {
      Hi32(a);
    } else {
      Hi88(a);
    }
  }

  /** Rounding intervals do not overlap: the quotient is the only h that a rounds to. */
  lemma RoundsToUnique(dv: nat, a: int, h: int)
    requires IsDivisor(dv) && 0 <= a < Q && RoundsTo(dv, a, h)
    ensures DecomposeHi(dv, a) == h
  {
    hide DecomposeHi;
    DecomposeHiRounds(dv, a);
    RoundingConstants();
    SameInterval(dv, a, h, DecomposeHi(dv, a));
  }

  lemma SameInterval(dv: nat, a: int, h: int, g: int)
    requires IsDivisor(dv) && RoundsTo(dv, a, h) && RoundsTo(dv, a, g) && 0 <= a < Q
    ensures h == g
  {
    RoundingConstants();
  }

  /** a = hi * 2 gamma2 + lo modulo Q, with hi in range and lo centred within gamma2. */
  lemma DecomposeSpec(dv: nat, a: int)
    requires IsDivisor(dv) && 0 <= a < Q
    ensures 0 <= DecomposeHi(dv, a) < dv / 2 && 0 <= DecomposeLo(dv, a) < Q
    ensures -Gamma2(dv) <= Centred(DecomposeLo(dv, a)) <= Gamma2(dv)
    ensures var e := a - DecomposeHi(dv, a) * 2 * Gamma2(dv) - Centred(DecomposeLo(dv, a));
      e == 0 || (e == Q && DecomposeHi(dv, a) == 0)
  {
    hide DecomposeHi;
    DecomposeHiRounds(dv, a);
    RoundingConstants();
  }

  /** Adding less than the slack left by the low part does not change the high part. */
  lemma HighStable(dv: nat, a: int, e: int, beta: int, b: int)
    requires IsDivisor(dv) && 0 <= a < Q && 0 <= b < Q && 0 <= beta
    requires -beta <= e <= beta && b == (a + e) % Q
    requires -(Gamma2(dv) - beta) < Centred(DecomposeLo(dv, a)) < Gamma2(dv) - beta
    ensures DecomposeHi(dv, b) == DecomposeHi(dv, a)
  {
    hide DecomposeHi, DecomposeLo;
    DecomposeSpec(dv, a);
    RoundingConstants();
    var h := DecomposeHi(dv, a);
    assert b == a + e || b == a + e - Q || b == a + e + Q;
    assert RoundsTo(dv, b, h);
    RoundsToUnique(dv, b, h);
  }

  // ----- hints -----

  /** One step up or down from the high part, as usepartialhint takes it. */
  function Adjusted(dv: nat, w: int): (a1: int)
    requires IsDivisor(dv)
  {
    var md := dv / 2;
    var a1 := DecomposeHi(dv, w);
    if DecomposeLo(dv, w) <= Q / 2 then (if a1 + 1 >= md then a1 + 1 - md else a1 + 1)
    else (if a1 - 1 < 0 then a1 - 1 + md else a1 - 1)
  }

  /** If adding |z| < gamma2 changes the high part, one adjustment finds the new one. */
  lemma HintRecovers(dv: nat, r: int, z: int, s: int)
    requires IsDivisor(dv) && 0 <= r < Q && 0 <= s < Q
    requires -Gamma2(dv) < z < Gamma2(dv) && s == (r + z) % Q
    requires DecomposeHi(dv, r) != DecomposeHi(dv, s)
    ensures Adjusted(dv, r) == DecomposeHi(dv, s)
  {
    hide DecomposeHi, DecomposeLo;
    DecomposeSpec(dv, r);
    RoundingConstants();
    var g, l, a := DecomposeHi(dv, r), Centred(DecomposeLo(dv, r)), Adjusted(dv, r);
    assert s == r + z || s == r + z - Q || s == r + z + Q;
    if RoundsTo(dv, s, g) {
      RoundsToUnique(dv, s, g);
    } else {
      OneStep(dv, r, z, s);
      RoundsToUnique(dv, s, a);
    }
  }

  lemma OneStep(dv: nat, r: int, z: int, s: int)
    requires IsDivisor(dv) && 0 <= r < Q && 0 <= s < Q
    requires -Gamma2(dv) < z < Gamma2(dv) && (s == r + z || s == r + z - Q || s == r + z + Q)
    requires !RoundsTo(dv, s, DecomposeHi(dv, r))
    ensures RoundsTo(dv, s, Adjusted(dv, r))
  {
    hide DecomposeHi, DecomposeLo;
    DecomposeSpec(dv, r);
    RoundingConstants();
    if dv == 32 {
    } else {
    }
  }
}
