/** The rejection loop of the lattice samplers: the first 256 candidates below a bound. */
module RejectionSampling {
  import opened Wrappers
  import opened TransformTree

  /** The elements below bound, in order. */
  function Below(s: seq<int>, bound: int): (t: seq<int>)
    ensures forall i :: 0 <= i < |t| ==> t[i] < bound
  {
    if s == [] then [] else Below(s[..|s| - 1], bound) + if s[|s| - 1] < bound then [s[|s| - 1]] else []
  }

  lemma {:induction false} BelowExtends(s: seq<int>, bound: int, k: nat)
    requires k <= |s|
    ensures Below(s[..k], bound) <= Below(s, bound)
    decreases |s|
  {
    if k == |s| {
      assert s[..k] == s;
    } else {
      var t := s[..|s| - 1];
      assert t[..k] == s[..k];
      BelowExtends(t, bound, k);
    }
  }

  lemma {:induction false} BelowAtLeast(s: seq<int>, bound: int, lo: int)
    requires forall i :: 0 <= i < |s| ==> lo <= s[i]
    ensures forall i :: 0 <= i < |Below(s, bound)| ==> lo <= Below(s, bound)[i]
  {
    if s != [] {
      BelowAtLeast(s[..|s| - 1], bound, lo);
    }
  }

  /** The first 256 elements below bound; None if the stream runs out, where the source panics. */
  function FirstBelow(s: seq<int>, bound: int): (t: Option<seq<int>>)
    ensures t.Some? ==> |t.value| == DEGREE && forall i :: 0 <= i < DEGREE ==> t.value[i] < bound
  {
    if |Below(s, bound)| < DEGREE then None else Some(Below(s, bound)[..DEGREE])
  }

  /** How many of the first k elements are below bound. */
  function CountBelow(s: seq<int>, bound: int, k: nat): (c: nat)
    requires k <= |s|
  {
    |set n | 0 <= n < k && s[n] < bound|
  }

  /** v is the j-th element below bound, counted from 0: it stands where exactly j such elements stand before it. */
  predicate IsNth(s: seq<int>, bound: int, j: nat, v: int) {
    v < bound && exists i :: 0 <= i < |s| && s[i] == v && CountBelow(s, bound, i) == j
  }

  lemma {:induction false} BelowCount(s: seq<int>, bound: int, k: nat)
    requires k <= |s|
    ensures |Below(s[..k], bound)| == CountBelow(s, bound, k)
  {
    var less := set n | 0 <= n < k - 1 && s[n] < bound;
    var all := set n | 0 <= n < k && s[n] < bound;
    if k == 0 {
      assert all == {};
    } else {
      BelowCount(s, bound, k - 1);
      assert s[..k][..k - 1] == s[..k - 1];
      assert all == less + (if s[k - 1] < bound then {k - 1} else {});
    }
  }

  lemma {:induction false} BelowNth(s: seq<int>, bound: int, k: nat, j: nat)
    requires k <= |s| && j < |Below(s[..k], bound)|
    ensures IsNth(s, bound, j, Below(s[..k], bound)[j])
  {
    hide CountBelow;
    if k > 0 {
      assert s[..k][..k - 1] == s[..k - 1];
      if j < |Below(s[..k - 1], bound)| {
        BelowNth(s, bound, k - 1, j);
      } else {
        BelowCount(s, bound, k - 1);
      }
    }
  }

  /** FirstBelow by counting: element j is the j-th one below the bound, and there is no answer exactly if there are too few. */
  lemma FirstBelowExact(s: seq<int>, bound: int)
    ensures FirstBelow(s, bound).None? <==> CountBelow(s, bound, |s|) < DEGREE
    ensures FirstBelow(s, bound).Some? ==>
      forall j: nat :: j < DEGREE ==> IsNth(s, bound, j, FirstBelow(s, bound).value[j])
  {
    hide CountBelow, IsNth, Below;
    assert s[..|s|] == s;
    BelowCount(s, bound, |s|);
    if FirstBelow(s, bound).Some? {
      forall j: nat | j < DEGREE ensures IsNth(s, bound, j, FirstBelow(s, bound).value[j]) {
        BelowNth(s, bound, |s|, j);
      }
    }
  }

  // ----- rejection loops -----

  /** got holds the first 256 elements below bound among those seen. */
  predicate Taken(got: seq<int>, seen: seq<int>, bound: int) {
    |got| <= DEGREE && got <= Below(seen, bound) && (|got| < DEGREE ==> got == Below(seen, bound))
  }

  lemma TakenStep(got: seq<int>, c: seq<int>, k: nat, bound: int)
    requires k < |c| && Taken(got, c[..k], bound)
    ensures Taken(if c[k] < bound && |got| < DEGREE then got + [c[k]] else got, c[..k + 1], bound)
  {
    assert c[..k + 1][..k] == c[..k];
  }

  lemma NoneTaken(c: seq<int>, bound: int)
    ensures Taken([], c[..0], bound)
  {
  }

  lemma AllTaken(got: seq<int>, c: seq<int>, k: nat, bound: int)
    requires k <= |c| && Taken(got, c[..k], bound) && (|got| == DEGREE || k == |c|)
    ensures FirstBelow(c, bound) == if |got| < DEGREE then None else Some(got)
  {
    hide Below;
    BelowExtends(c, bound, k);
    assert k == |c| ==> c[..k] == c;
    assert got <= Below(c, bound);
    assert |got| == DEGREE ==> Below(c, bound)[..DEGREE] == got;
  }

  /** The rejection loop of sample_sn. */
  method TakeBelow(s: seq<int>, bound: int) returns (t: Option<seq<int>>)
    ensures t == FirstBelow(s, bound)
    ensures t.None? <==> CountBelow(s, bound, |s|) < DEGREE
    ensures t.Some? ==> forall j: nat :: j < DEGREE ==> IsNth(s, bound, j, t.value[j])
  {
    hide Below;
    var got: seq<int> := [];
    var k := 0;
    NoneTaken(s, bound);
    while |got| < DEGREE && k < |s|
      invariant k <= |s| && Taken(got, s[..k], bound)
      decreases |s| - k
    {
      TakenStep(got, s, k, bound);
      if s[k] < bound {
        got := got + [s[k]];
      }
      k := k + 1;
    }
    AllTaken(got, s, k, bound);
    FirstBelowExact(s, bound);
    t := if |got| < DEGREE then None else Some(got);
  }
}
