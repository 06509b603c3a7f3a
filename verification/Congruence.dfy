/** Congruence of integers and of integer sequences modulo a fixed modulus. */
module Congruence {

  predicate Cong(a: int, b: int, q: int)
    requires q > 0
  {
    (a - b) % q == 0
  }

  lemma CongIntro(a: int, b: int, q: int, k: int)
    requires q > 0
    requires a - b == k * q
    ensures Cong(a, b, q)
  {
    ModOfMultiple(k, q);
  }

  /** A non-zero multiple of q is at least q away from zero. */
  lemma MultipleIsFar(k: int, q: int)
    requires q > 0
    ensures k >= 1 ==> k * q >= q
    ensures k <= -1 ==> k * q <= -q
  {
  }

  lemma ModOfMultiple(k: int, q: int)
    requires q > 0
    ensures (k * q) % q == 0
  {
    var r := (k * q) % q;
    var d := (k * q) / q;
    assert (k - d) * q == r;
    MultipleIsFar(k - d, q);
  }

  function Quot(a: int, b: int, q: int): (k: int)
    requires q > 0 && Cong(a, b, q)
    ensures a - b == k * q
  {
    (a - b) / q
  }

  lemma CongSym(a: int, b: int, q: int)
    requires q > 0 && Cong(a, b, q)
    ensures Cong(b, a, q)
  {
    CongIntro(b, a, q, -Quot(a, b, q));
  }

  lemma CongTrans(a: int, b: int, c: int, q: int)
    requires q > 0 && Cong(a, b, q) && Cong(b, c, q)
    ensures Cong(a, c, q)
  {
    CongIntro(a, c, q, Quot(a, b, q) + Quot(b, c, q));
  }

  lemma CongAdd(a: int, b: int, c: int, d: int, q: int)
    requires q > 0 && Cong(a, b, q) && Cong(c, d, q)
    ensures Cong(a + c, b + d, q)
  {
    CongIntro(a + c, b + d, q, Quot(a, b, q) + Quot(c, d, q));
  }

  lemma CongSub(a: int, b: int, c: int, d: int, q: int)
    requires q > 0 && Cong(a, b, q) && Cong(c, d, q)
    ensures Cong(a - c, b - d, q)
  {
    CongIntro(a - c, b - d, q, Quot(a, b, q) - Quot(c, d, q));
  }

  lemma CongMul(a: int, b: int, c: int, d: int, q: int)
    requires q > 0 && Cong(a, b, q) && Cong(c, d, q)
    ensures Cong(a * c, b * d, q)
  {
    var k, l := Quot(a, b, q), Quot(c, d, q);
    calc {
      a * c - b * d;
      a * (c - d) + (a - b) * d;
      a * (l * q) + (k * q) * d;
      (a * l + k * d) * q;
    }
    CongIntro(a * c, b * d, q, a * l + k * d);
  }

  lemma CongScale(c: int, a: int, b: int, q: int)
    requires q > 0 && Cong(a, b, q)
    ensures Cong(c * a, c * b, q)
  {
    CongIntro(c, c, q, 0);
    CongMul(c, c, a, b, q);
  }

  /** Every integer is congruent to its canonical residue. */
  lemma CongMod(a: int, q: int)
    requires q > 0
    ensures Cong(a % q, a, q) && Cong(a, a % q, q)
  {
    CongIntro(a, a % q, q, a / q);
    CongSym(a, a % q, q);
  }

  /** Two congruent integers less than a modulus apart are equal. */
  lemma CongUnique(a: int, b: int, q: int)
    requires q > 0 && Cong(a, b, q)
    requires -q < a - b < q
    ensures a == b
  {
    var k := Quot(a, b, q);
    MultipleIsFar(k, q);
  }

  /** A canonical value is the residue of whatever it is congruent to. */
  lemma CongCanonical(a: int, b: int, q: int)
    requires q > 0 && Cong(a, b, q) && 0 <= a < q
    ensures a == b % q
  {
    CongMod(b, q);
    CongTrans(a, b, b % q, q);
    CongUnique(a, b % q, q);
  }

  /** Pointwise congruence of two sequences. */
  predicate SeqCong(p: seq<int>, r: seq<int>, q: int)
    requires q > 0
  {
    |p| == |r| && forall i :: 0 <= i < |p| ==> Cong(p[i], r[i], q)
  }

  lemma SeqCongWidth(p: seq<int>, r: seq<int>, q: int)
    requires q > 0 && SeqCong(p, r, q)
    ensures |p| == |r|
  {
  }

  lemma SeqCongRefl(p: seq<int>, q: int)
    requires q > 0
    ensures SeqCong(p, p, q)
  {
    forall i | 0 <= i < |p| ensures Cong(p[i], p[i], q) {
      CongIntro(p[i], p[i], q, 0);
    }
  }

  lemma SeqCongSym(p: seq<int>, r: seq<int>, q: int)
    requires q > 0 && SeqCong(p, r, q)
    ensures SeqCong(r, p, q)
  {
    forall i | 0 <= i < |p| ensures Cong(r[i], p[i], q) {
      CongSym(p[i], r[i], q);
    }
  }

  lemma SeqCongTrans(p: seq<int>, r: seq<int>, s: seq<int>, q: int)
    requires q > 0 && SeqCong(p, r, q) && SeqCong(r, s, q)
    ensures SeqCong(p, s, q)
  {
    forall i | 0 <= i < |p| ensures Cong(p[i], s[i], q) {
      CongTrans(p[i], r[i], s[i], q);
    }
  }

  // ----- leaving Montgomery form: x * R becomes x -----

  lemma ProductOut(a: int, b: int, c: int, d: int, rinv: int, q: int)
    requires q > 0 && Cong(a * b, c * d, q)
    ensures Cong(((a * rinv) % q) * ((b * rinv) % q), (c * rinv) * (d * rinv), q)
  {
    hide Cong;
    CongMod(a * rinv, q);
    CongMod(b * rinv, q);
    CongMul((a * rinv) % q, a * rinv, (b * rinv) % q, b * rinv, q);
    CongScale(rinv * rinv, a * b, c * d, q);
    Regroup(rinv, a, b);
    Regroup(rinv, c, d);
    CongTrans(((a * rinv) % q) * ((b * rinv) % q), (a * rinv) * (b * rinv), (c * rinv) * (d * rinv), q);
  }

  lemma Regroup(r: int, a: int, b: int)
    ensures r * r * (a * b) == (a * r) * (b * r)
  {
  }

  /** A square t^2 = d * R in Montgomery form is the square of t's value, equal to d's value. */
  lemma SquareOut(t: int, d: int, r: int, rinv: int, q: int)
    requires q > 0 && Cong(t * t, d * r, q) && Cong(r * rinv, 1, q)
    ensures Cong(((t * rinv) % q) * ((t * rinv) % q), (d * rinv) % q, q)
  {
    hide Cong;
    ProductOut(t, t, d, r, rinv, q);
    CongScale(d * rinv, r * rinv, 1, q);
    CongMod(d * rinv, q);
    CongTrans((d * rinv) * (r * rinv), d * rinv, (d * rinv) % q, q);
    CongTrans(((t * rinv) % q) * ((t * rinv) % q), (d * rinv) * (r * rinv), (d * rinv) % q, q);
  }

  /** Factors with product R^2 in Montgomery form are inverse to each other. */
  lemma InverseOut(a: int, b: int, r: int, rinv: int, q: int)
    requires q > 0 && Cong(a * b, r * r, q) && Cong(r * rinv, 1, q)
    ensures Cong(((a * rinv) % q) * ((b * rinv) % q), 1, q)
  {
    hide Cong;
    ProductOut(a, b, r, r, rinv, q);
    CongMul(r * rinv, 1, r * rinv, 1, q);
    CongTrans(((a * rinv) % q) * ((b * rinv) % q), (r * rinv) * (r * rinv), 1, q);
  }

  lemma NegationOut(c: int, rinv: int, q: int)
    requires q > 0
    ensures Cong(((-c) * rinv) % q, -((c * rinv) % q), q)
  {
    hide Cong;
    CongMod((-c) * rinv, q);
    CongMod(c * rinv, q);
    CongScale(-1, c * rinv, (c * rinv) % q, q);
    assert (-c) * rinv == -1 * (c * rinv);
    CongTrans(((-c) * rinv) % q, (-c) * rinv, -((c * rinv) % q), q);
  }
}
