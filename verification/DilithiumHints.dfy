/** The hint buffer of dilithium.rs, shared by all rows: makepartialhint and usepartialhint. */
module DilithiumHints {
  import opened TransformTree
  import opened DilithiumTables
  import opened DilithiumMontgomery
  import opened DilithiumRounding

  const HINT_BYTES: nat := 100

  type Byte = x: int | 0 <= x < 256

  type I8 = x: int | -128 <= x < 128

  /** r + z reduced, for 0 <= r < Q and 0 <= z <= Q. */
  function WrapSum(r: int, z: int): (s: int) { if r + z - Q < 0 then r + z else r + z - Q }

  predicate Differs(dv: nat, r: int, z: int)
    requires IsDivisor(dv)
  {
    DecomposeHi(dv, r) != DecomposeHi(dv, WrapSum(r, z))
  }

  /** Operands of a row: r canonical, z canonical or Q. */
  predicate IsRow(r: seq<int>, z: seq<int>) {
    && |r| == |z| == DEGREE
    && (forall i :: 0 <= i < DEGREE ==> 0 <= r[i] < Q) && (forall i :: 0 <= i < DEGREE ==> 0 <= z[i] <= Q)
  }

  /** The positions below m at which adding z changes the high part, in increasing order. */
  function Positions(dv: nat, r: seq<int>, z: seq<int>, m: nat): (h: seq<int>)
    requires IsDivisor(dv) && m <= |r| == |z|
    ensures |h| <= m && forall i :: 0 <= i < |h| ==> 0 <= h[i] < m && Differs(dv, r[h[i]], z[h[i]])
  {
    if m == 0 then []
    else Positions(dv, r, z, m - 1) + if Differs(dv, r[m - 1], z[m - 1]) then [m - 1] else []
  }

  /** Positions grow by appending positions that come later. */
  lemma {:induction false} PositionsExtend(dv: nat, r: seq<int>, z: seq<int>, m: nat, n: nat)
    requires IsDivisor(dv) && m <= n <= |r| == |z|
    ensures Positions(dv, r, z, m) <= Positions(dv, r, z, n)
    ensures forall i :: |Positions(dv, r, z, m)| <= i < |Positions(dv, r, z, n)| ==> m <= Positions(dv, r, z, n)[i]
    decreases n - m
  {
    hide Differs;
    if m < n {
      PositionsExtend(dv, r, z, m, n - 1);
    }
  }

  /** Appends the positions of one row to the buffer at hptr; omega + 1 when they do not all fit. */
  method MakePartialHint(params: Params, h: array<Byte>, hptr: nat, z: array<I32>, r: array<I32>) returns (res: nat)
    requires IsParams(params) && h.Length == HINT_BYTES && hptr <= params.omega
    requires z.Length == r.Length == DEGREE && IsRow(r[..], z[..])
    modifies h
    ensures var hints := Positions(params.dv, r[..], z[..], DEGREE);
      if hptr + |hints| <= params.omega
      then res == hptr + |hints| && h[..] == old(h[..])[..hptr] + hints + old(h[..])[res..]
      else res == params.omega + 1
  {
    hide DecomposeHi, Differs, Positions;
    var ptr := hptr;
    var dv := params.dv;
    ghost var h0: seq<int>, rs, zs := h[..], r[..], z[..];
    NoPositions(dv, rs, zs);
    assert h0 == h0[..hptr] + [] + h0[hptr..];
    for m := 0 to DEGREE
      invariant ptr == hptr + |Positions(dv, rs, zs, m)| <= params.omega
      invariant h[..] == h0[..hptr] + Positions(dv, rs, zs, m) + h0[ptr..]
    {
      assert r[m] == rs[m] && z[m] == zs[m];
      PositionsStep(dv, rs, zs, m);
      var a0 := DecomposeHi(dv, r[m]);
      var rz := r[m] + z[m];
      rz := rz - Q;
      rz := rz + SignMask(rz);
      var a1 := DecomposeHi(dv, rz);
      DifferIs(dv, rs[m], zs[m], rz);
      if a0 != a1 {
        if ptr >= params.omega {
          PositionsExtend(dv, rs, zs, m + 1, DEGREE);
          return params.omega + 1;
        }
        PushHint(h[..], h0, hptr, Positions(dv, rs, zs, m), m);
        h[ptr] := m % 256;
        ptr := ptr + 1;
      }
    }
    res := ptr;
  }

  lemma NoPositions(dv: nat, r: seq<int>, z: seq<int>)
    requires IsDivisor(dv) && |r| == |z|
    ensures Positions(dv, r, z, 0) == []
  {
  }

  lemma DifferIs(dv: nat, r: int, z: int, s: int)
    requires IsDivisor(dv) && s == WrapSum(r, z)
    ensures Differs(dv, r, z) <==> DecomposeHi(dv, r) != DecomposeHi(dv, s)
  {
  }

  lemma PushHint(h: seq<int>, h0: seq<int>, hptr: nat, p: seq<int>, m: int)
    requires hptr + |p| < |h| == |h0| && h == h0[..hptr] + p + h0[hptr + |p|..]
    ensures h[hptr + |p| := m] == h0[..hptr] + (p + [m]) + h0[hptr + |p| + 1..]
  {
  }

  // ----- reading -----

  /** Whether the reader at ptr takes position m for a hint. */
  predicate Hit(h: seq<int>, end: int, ptr: nat, m: nat) { ptr < |h| && m == h[ptr] && ptr < end }

  /** The read pointer before position m, started at hptr. */
  function Pointer(h: seq<int>, end: int, hptr: nat, m: nat): (ptr: nat)
    ensures hptr <= ptr <= hptr + m
  {
    if m == 0 then hptr
    else
      var ptr := Pointer(h, end, hptr, m - 1);
      if Hit(h, end, ptr, m - 1) then ptr + 1 else ptr
  }

  /** The high part read at position m. */
  function HintedHigh(dv: nat, h: seq<int>, end: int, hptr: nat, w: seq<int>, m: nat): (a1: int)
    requires IsDivisor(dv) && m < |w|
  {
    if Hit(h, end, Pointer(h, end, hptr, m), m) then Adjusted(dv, w[m]) else DecomposeHi(dv, w[m])
  }

  function HintedRow(dv: nat, h: seq<int>, end: int, hptr: nat, w: seq<int>): (r: seq<int>)
    requires IsDivisor(dv)
    ensures |r| == |w|
  {
    seq(|w|, m requires 0 <= m < |w| => HintedHigh(dv, h, end, hptr, w, m))
  }

  /** Zeros follow the omega position bytes and the ck row ends. */
  predicate IsBuffer(params: Params, h: seq<int>) {
    |h| == HINT_BYTES && forall j :: params.omega + params.ck <= j < HINT_BYTES ==> h[j] == 0
  }

  /** The reader never runs off the buffer, whatever the bytes a signature carries. */
  lemma {:induction false} PointerInBuffer(params: Params, h: seq<int>, end: int, hptr: nat, m: nat)
    requires IsParams(params) && IsBuffer(params, h) && hptr <= params.omega
    ensures Pointer(h, end, hptr, m) <= params.omega + params.ck < HINT_BYTES
  {
    if m > 0 {
      PointerInBuffer(params, h, end, hptr, m - 1);
    }
  }

  lemma DecomposeRange(dv: nat, a: int)
    requires IsDivisor(dv) && -21 < a < Q
    ensures 0 <= DecomposeHi(dv, a) < dv / 2 && 0 <= DecomposeLo(dv, a) < Q
  {
    hide DecomposeHi, DecomposeLo;
    if a < 0 {
      DecomposeBelowZero(dv, a);
      DecomposeSpec(dv, a + Q);
    } else {
      DecomposeSpec(dv, a);
    }
  }

  /** Reading hints for a row gives the same whether its residues are canonical or slightly below zero. */
  lemma HintedResidues(dv: nat, h: seq<int>, end: int, hptr: nat, w: seq<int>, v: seq<int>)
    requires IsDivisor(dv) && |w| == |v| && forall m :: 0 <= m < |w| ==> -21 < w[m] < Q && v[m] == if w[m] < 0 then w[m] + Q else w[m]
    ensures HintedRow(dv, h, end, hptr, w) == HintedRow(dv, h, end, hptr, v)
  {
    hide DecomposeHi, DecomposeLo, Pointer, Hit;
    forall m: nat | m < |w| ensures HintedHigh(dv, h, end, hptr, w, m) == HintedHigh(dv, h, end, hptr, v, m) {
      if w[m] < 0 {
        DecomposeBelowZero(dv, w[m]);
      }
    }
  }

  /** Reads row i of the buffer from hptr on and returns the pointer reached. */
  method UsePartialHint(params: Params, r: array<I8>, h: array<Byte>, hptr: nat, i: nat, w: array<I32>) returns (res: nat)
    requires IsParams(params) && IsBuffer(params, h[..]) && hptr <= params.omega && i < params.ck
    requires r.Length == w.Length == DEGREE && r as object != h && r as object != w
    requires forall j :: 0 <= j < DEGREE ==> -21 < w[j] < Q
    modifies r
    ensures var end := h[params.omega + i];
      && res == Pointer(h[..], end, hptr, DEGREE)
      && r[..] == HintedRow(params.dv, h[..], end, hptr, w[..])
  {
    hide DecomposeHi, DecomposeLo;
    var ptr := hptr;
    var dv := params.dv;
    var md := dv / 2;
    ghost var end := h[params.omega + i];
    ghost var hs: seq<int>, ws := h[..], w[..];
    for m := 0 to DEGREE
      invariant ptr == Pointer(hs, end, hptr, m) && h[..] == hs && w[..] == ws
      invariant forall k :: 0 <= k < m ==> r[k] == HintedHigh(dv, hs, end, hptr, ws, k)
    {
      PointerInBuffer(params, hs, end, hptr, m);
      DecomposeRange(dv, w[m]);
      var a1 := DecomposeHi(dv, w[m]);
      if m == h[ptr] && ptr < h[params.omega + i] {
        ptr := ptr + 1;
        var a0 := DecomposeLo(dv, w[m]);
        if a0 <= Q / 2 {
          a1 := a1 + 1;
          if a1 >= md {
            a1 := a1 - md;
          }
        } else {
          a1 := a1 - 1;
          if a1 < 0 {
            a1 := a1 + md;
          }
        }
      }
      assert a1 == HintedHigh(dv, hs, end, hptr, ws, m);
      r[m] := a1;
    }
    res := ptr;
  }

  /** Row hints written by makepartialhint are consumed one by one. */
  lemma {:induction false} PointerFollows(dv: nat, h: seq<int>, end: nat, hptr: nat, r: seq<int>, z: seq<int>, m: nat)
    requires IsDivisor(dv) && m <= |r| == |z| && hptr <= end <= |h|
    requires h[hptr..end] == Positions(dv, r, z, |r|)
    ensures Pointer(h, end, hptr, m) == hptr + |Positions(dv, r, z, m)|
  {
    hide Differs;
    if m > 0 {
      PointerFollows(dv, h, end, hptr, r, z, m - 1);
      HitIffDiffers(dv, h, end, hptr, r, z, m - 1);
    }
  }

  lemma HitIffDiffers(dv: nat, h: seq<int>, end: nat, hptr: nat, r: seq<int>, z: seq<int>, m: nat)
    requires IsDivisor(dv) && m < |r| == |z| && hptr <= end <= |h|
    requires h[hptr..end] == Positions(dv, r, z, |r|)
    ensures Hit(h, end, hptr + |Positions(dv, r, z, m)|, m) <==> Differs(dv, r[m], z[m])
  {
    hide Differs, Positions;
    var all, below := Positions(dv, r, z, |r|), Positions(dv, r, z, m);
    PositionsExtend(dv, r, z, m + 1, |r|);
    PositionsStep(dv, r, z, m);
    var ptr := hptr + |below|;
    assert |all| == end - hptr && forall i :: 0 <= i < |all| ==> all[i] == h[hptr + i];
    if Differs(dv, r[m], z[m]) {
      assert below + [m] <= all;
      assert all[|below|] == m;
    } else if ptr < end {
      assert all[|below|] >= m + 1;
    }
  }

  lemma PositionsStep(dv: nat, r: seq<int>, z: seq<int>, m: nat)
    requires IsDivisor(dv) && m < |r| == |z|
    ensures Positions(dv, r, z, m + 1) == Positions(dv, r, z, m) + if Differs(dv, r[m], z[m]) then [m] else []
  {
  }

  /** The centred value of z, for z canonical or Q, is at most gamma2 - 1 in size. */
  predicate SmallHint(dv: nat, z: int)
    requires IsDivisor(dv)
  {
    0 <= z <= Q && (z < Gamma2(dv) || Q - z < Gamma2(dv))
  }

  lemma HighAfterHint(dv: nat, r: int, z: int)
    requires IsDivisor(dv) && 0 <= r < Q && SmallHint(dv, z) && Differs(dv, r, z)
    ensures Adjusted(dv, r) == DecomposeHi(dv, WrapSum(r, z))
  {
    hide DecomposeHi, DecomposeLo, Adjusted;
    var c := if z < Gamma2(dv) then z else z - Q;
    RoundingConstants();
    assert WrapSum(r, z) == (r + c) % Q;
    HintRecovers(dv, r, c, WrapSum(r, z));
  }

  /**
   A reader starting where the writer of a row started consumes exactly that row's entries and returns
   the high part of r + z at every position, provided every |z| is below gamma2.
   */
  lemma HintRoundTrip(dv: nat, h: seq<int>, end: nat, hptr: nat, r: seq<int>, z: seq<int>)
    requires IsDivisor(dv) && IsRow(r, z) && hptr <= end <= |h|
    requires h[hptr..end] == Positions(dv, r, z, DEGREE)
    requires forall m :: 0 <= m < DEGREE ==> SmallHint(dv, z[m])
    ensures Pointer(h, end, hptr, DEGREE) == end
    ensures forall m :: 0 <= m < DEGREE ==>
      HintedRow(dv, h, end, hptr, r)[m] == DecomposeHi(dv, WrapSum(r[m], z[m]))
  {
    hide DecomposeHi, Adjusted, Pointer, Hit, Positions;
    PointerFollows(dv, h, end, hptr, r, z, DEGREE);
    forall m | 0 <= m < DEGREE
      ensures HintedHigh(dv, h, end, hptr, r, m) == DecomposeHi(dv, WrapSum(r[m], z[m]))
    {
      PointerFollows(dv, h, end, hptr, r, z, m);
      HitIffDiffers(dv, h, end, hptr, r, z, m);
      if Differs(dv, r[m], z[m]) {
        HighAfterHint(dv, r[m], z[m]);
      }
    }
  }
}
