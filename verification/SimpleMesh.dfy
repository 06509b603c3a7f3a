/** One heartbeat of one simple mesh in behaviour.rs: drop, fill, trim, outbound quota, opportunistic grafting. */
module SimpleMesh {
  import opened Network
  import opened MeshPolicy

  // ----- trimming -----

  /** The order in which peers are considered for removal: the best retain peers come last, the others are shuffled. */
  method RemovalOrder(peers: set<Peer>, retain: nat, score: Score) returns (order: seq<Peer>, ghost best: set<Peer>)
    requires retain <= |peers|
    ensures NoRepeats(order) && SetOfPeers(order) == peers && |order| == |peers|
    ensures |best| == retain && best == SetOfPeers(order[|peers| - retain..]) && WorstDropped(peers, best, score)
  {
    hide NoRepeats, SetOfPeers, Ascending, WorstDropped;
    var sorted := SortByScore(peers, score);
    var m := |peers| - retain;
    PrefixDropped(sorted, m, score);
    SplitSet(sorted, m);
    var head := Shuffled(SetOfPeers(sorted[..m]));
    best := SetOfPeers(sorted[m..]);
    JoinSet(head, sorted[m..]);
    order := head + sorted[m..];
    assert order[m..] == sorted[m..];
  }

  lemma SplitSet(s: seq<Peer>, m: nat)
    requires NoRepeats(s) && m <= |s|
    ensures NoRepeats(s[..m]) && NoRepeats(s[m..]) && SetOfPeers(s[..m]) !! SetOfPeers(s[m..])
    ensures SetOfPeers(s) == SetOfPeers(s[..m]) + SetOfPeers(s[m..]) && |SetOfPeers(s[..m])| == m
  {
    assert s == s[..m] + s[m..];
    SizeOfSet(s[..m]);
    forall p | p in s[..m] ensures p !in s[m..] {
      var i :| 0 <= i < m && s[..m][i] == p;
      assert s[i] == p;
    }
  }

  lemma JoinSet(a: seq<Peer>, b: seq<Peer>)
    requires NoRepeats(a) && NoRepeats(b) && SetOfPeers(a) !! SetOfPeers(b)
    ensures NoRepeats(a + b) && SetOfPeers(a + b) == SetOfPeers(a) + SetOfPeers(b)
  {
    forall i, j | 0 <= i < j < |a + b| ensures (a + b)[i] != (a + b)[j] {
      if i < |a| <= j {
        assert a[i] in SetOfPeers(a) && b[j - |a|] in SetOfPeers(b);
      }
    }
  }

  /** The removal loop with order[..j] considered: what is kept of it is protected outbound. */
  ghost predicate Trimming(order: seq<Peer>, j: nat, peers: set<Peer>, kept: set<Peer>, outbound: set<Peer>, outMin: nat) {
    && j <= |order| && NoRepeats(order) && SetOfPeers(order) == peers && kept <= peers
    && (forall i :: 0 <= i < j && order[i] in kept ==> order[i] in outbound && |kept * outbound| <= outMin)
    && (forall i :: j <= i < |order| ==> order[i] in kept)
    && |kept * outbound| >= Min(|peers * outbound|, outMin)
  }

  lemma TrimmingStart(order: seq<Peer>, peers: set<Peer>, outbound: set<Peer>, outMin: nat)
    requires NoRepeats(order) && SetOfPeers(order) == peers
    ensures Trimming(order, 0, peers, peers, outbound, outMin)
  {
  }

  /** An outbound peer is protected once only the minimum is left. */
  lemma TrimmingSkips(order: seq<Peer>, j: nat, peers: set<Peer>, kept: set<Peer>, outbound: set<Peer>, outMin: nat)
    requires Trimming(order, j, peers, kept, outbound, outMin) && j < |order| && order[j] in outbound && |kept * outbound| <= outMin
    ensures Trimming(order, j + 1, peers, kept, outbound, outMin)
  {
  }

  lemma TrimmingDrops(order: seq<Peer>, j: nat, peers: set<Peer>, kept: set<Peer>, outbound: set<Peer>, outMin: nat)
    requires Trimming(order, j, peers, kept, outbound, outMin) && j < |order|
    requires order[j] in outbound ==> |kept * outbound| > outMin
    ensures order[j] in kept
    ensures Trimming(order, j + 1, peers, kept - {order[j]}, outbound, outMin)
    ensures |(kept - {order[j]}) * outbound| == |kept * outbound| - if order[j] in outbound then 1 else 0
  {
    var p := order[j];
    var kept' := kept - {p};
    if p in outbound {
      assert kept * outbound == kept' * outbound + {p};
    } else {
      assert kept' * outbound == kept * outbound;
    }
    forall i | 0 <= i < j + 1 && order[i] in kept' ensures order[i] in outbound && |kept' * outbound| <= outMin {
      assert i < j;
    }
  }

  /** When all have been considered, no more than n are left. */
  lemma TrimmingEnds(order: seq<Peer>, peers: set<Peer>, kept: set<Peer>, outbound: set<Peer>, outMin: nat)
    requires Trimming(order, |order|, peers, kept, outbound, outMin)
    ensures |kept| <= outMin
  {
    if kept != {} {
      forall p | p in kept ensures p in outbound {
        assert p in SetOfPeers(order);
        var i :| 0 <= i < |order| && order[i] == p;
      }
      assert kept * outbound == kept;
      var p :| p in kept && p in peers;
      assert p in SetOfPeers(order);
      var i :| 0 <= i < |order| && order[i] == p;
    }
  }

  /** Trims an over-full mesh to exactly n; the outbound minimum survives, and the best retained peers go last. */
  method Trim(cfg: Config, peers: set<Peer>, outbound: set<Peer>, score: Score) returns (kept: set<Peer>, ghost best: set<Peer>)
    requires Accepted(cfg) && |peers| > cfg.high && cfg.retainScores <= |peers|
    ensures kept <= peers && |kept| == cfg.n
    ensures |kept * outbound| >= Min(|peers * outbound|, cfg.outboundMin)
    ensures |best| == cfg.retainScores && WorstDropped(peers, best, score)
    ensures best <= kept || forall p :: p in kept - best ==> p in outbound
  {
    hide NoRepeats, Trimming, WorstDropped;
    var excess := |peers| - cfg.n;
    var order;
    order, best := RemovalOrder(peers, cfg.retainScores, score);
    TrimmingStart(order, peers, outbound, cfg.outboundMin);
    kept := peers;
    var out := |peers * outbound|;
    var removed, j := 0, 0;
    while j < |order| && removed != excess
      invariant j <= |order| && removed <= excess && |kept| == |peers| - removed && kept <= peers
      invariant Trimming(order, j, peers, kept, outbound, cfg.outboundMin) && out == |kept * outbound|
      decreases |order| - j
    {
      var p := order[j];
      if p in outbound && out <= cfg.outboundMin {
        TrimmingSkips(order, j, peers, kept, outbound, cfg.outboundMin);
      } else {
        TrimmingDrops(order, j, peers, kept, outbound, cfg.outboundMin);
        if p in outbound {
          out := out - 1;
        }
        kept := kept - {p};
        removed := removed + 1;
      }
      j := j + 1;
    }
    if j == |order| {
      TrimmingEnds(order, peers, kept, outbound, cfg.outboundMin);
    }
    BestLast(order, j, peers, kept, outbound, cfg.outboundMin, cfg.retainScores, best);
  }

  lemma BestLast(order: seq<Peer>, j: nat, peers: set<Peer>, kept: set<Peer>, outbound: set<Peer>, outMin: nat,
                 retain: nat, best: set<Peer>)
    requires Trimming(order, j, peers, kept, outbound, outMin) && retain <= |order| && best == SetOfPeers(order[|order| - retain..])
    ensures best <= kept || forall p :: p in kept - best ==> p in outbound
    ensures |kept * outbound| >= Min(|peers * outbound|, outMin)
  {
    var m := |order| - retain;
    if j <= m {
      forall p | p in best ensures p in kept {
        var i :| 0 <= i < retain && order[m..][i] == p;
        assert order[m + i] == p;
      }
    } else {
      forall p | p in kept - best ensures p in outbound {
        assert p in SetOfPeers(order);
        var i :| 0 <= i < |order| && order[i] == p;
        InTail(order, m, i);
      }
    }
  }

  lemma InTail(order: seq<Peer>, m: nat, i: nat)
    requires m <= |order| && i < |order|
    ensures i >= m ==> order[i] in SetOfPeers(order[m..])
  {
    if i >= m {
      assert order[m..][i - m] == order[i];
    }
  }

  // ----- the median -----

  /** The median score of peers in ascending order. */
  function Median(s: seq<Peer>, score: Score): (m: real)
    requires s != []
  {
    var middle := |s| / 2;
    if |s| % 2 == 0 then (score(s[middle - 1]) + score(s[middle])) * 0.5 else score(s[middle])
  }

  lemma ListNotNegative(s: seq<Peer>, score: Score)
    requires forall p :: p in SetOfPeers(s) ==> score(p) >= 0.0
    ensures forall i :: 0 <= i < |s| ==> score(s[i]) >= 0.0
  {
    forall i | 0 <= i < |s| ensures score(s[i]) >= 0.0 {
      var p := s[i];
      assert p in SetOfPeers(s);
    }
  }

  lemma MedianNotNegative(s: seq<Peer>, score: Score)
    requires s != [] && forall i :: 0 <= i < |s| ==> score(s[i]) >= 0.0
    ensures Median(s, score) >= 0.0
  {
  }

  /** sorted lists the peers, worst score first. */
  ghost predicate Ranking(sorted: seq<Peer>, peers: set<Peer>, score: Score) {
    NoRepeats(sorted) && SetOfPeers(sorted) == peers && |sorted| == |peers| && Ascending(sorted, score)
  }

  /** A score above the median is above that of at least half the peers. */
  lemma AboveHalf(sorted: seq<Peer>, peers: set<Peer>, score: Score, x: real)
    requires Ranking(sorted, peers, score) && sorted != [] && x > Median(sorted, score)
    ensures 2 * |set q | q in peers && score(q) < x| >= |peers|
  {
    hide SetOfPeers;
    var k := (|sorted| + 1) / 2;
    assert 1 <= k <= |sorted| && 2 * k >= |sorted|;
    var front := sorted[..k];
    var below := set q | q in peers && score(q) < x;
    SizeOfSet(front);
    BelowMedian(sorted, score, k, x);
    forall p | p in SetOfPeers(front) ensures p in below {
      InFront(sorted, k, p);
    }
    SubsetSize(SetOfPeers(front), below);
  }

  lemma BelowMedian(sorted: seq<Peer>, score: Score, k: nat, x: real)
    requires Ascending(sorted, score) && sorted != [] && x > Median(sorted, score) && k == (|sorted| + 1) / 2
    ensures forall i :: 0 <= i < k ==> score(sorted[i]) < x
  {
    forall i | 0 <= i < k ensures score(sorted[i]) < x {
      assert i == k - 1 || score(sorted[i]) <= score(sorted[k - 1]);
    }
  }

  lemma InFront(s: seq<Peer>, k: nat, p: Peer)
    requires k <= |s| && p in SetOfPeers(s[..k])
    ensures p in SetOfPeers(s) && exists i :: 0 <= i < k && s[i] == p
  {
    var i :| 0 <= i < k && s[..k][i] == p;
    assert s[i] == p;
  }

  // ----- the whole step -----

  /** The candidates of a topic, everything a filter closure looks at, and what opportunistic grafting needs. */
  datatype Topical = Topical(candidates: set<Peer>, explicitPeers: set<Peer>, backedOff: Peer -> bool, score: Score,
                             outbound: set<Peer>, buckets: Buckets, opportunity: bool, threshold: real)

  predicate Graftable(t: Topical, peers: set<Peer>,
                      p: Peer) { p in t.candidates && p !in peers && p !in t.explicitPeers && !t.backedOff(p) }

  ghost predicate NoneNegative(peers: set<Peer>, score: Score) { forall p :: p in peers ==> score(p) >= 0.0 }

  /** From before to after: only graftable peers of non-negative score came in, at most extra of them. */
  ghost predicate Grafted(t: Topical, before: set<Peer>, after: set<Peer>, extra: int) {
    && before <= after && |after| <= |before| + extra
    && forall p :: p in after - before ==> Graftable(t, before, p) && t.score(p) >= 0.0
  }

  /** The peers that the fill chooses from. */
  ghost function Candidates(t: Topical, peers: set<Peer>): (c: set<Peer>)
  {
    set p | p in t.candidates && Graftable(t, peers, p) && t.score(p) >= 0.0
  }

  /** Some of the chosen joined peers, those left out being in a full bucket. */
  ghost predicate Joined(cfg: Config, t: Topical, peers: set<Peer>, chosen: set<Peer>, r: set<Peer>) {
    && peers <= r <= peers + chosen && WithinCap(cfg.subnetCap, peers, r, t.buckets)
    && forall p :: p in chosen - r ==> ViolatesCap(cfg.subnetCap, r, t.buckets, p)
  }

  /** r is an outcome of the fill. */
  ghost predicate Filled(cfg: Config, t: Topical, peers: set<Peer>, r: set<Peer>) {
    if |peers| >= cfg.low then r == peers
    else exists chosen :: chosen <= Candidates(t, peers) && |chosen| == Min(cfg.n - |peers|, |Candidates(t, peers)|)
           && Joined(cfg, t, peers, chosen, r)
  }

  lemma FilledFacts(cfg: Config, t: Topical, peers: set<Peer>, r: set<Peer>)
    requires Accepted(cfg) && Filled(cfg, t, peers, r)
    ensures |peers| >= cfg.low ==> r == peers
    ensures |peers| < cfg.low ==> |r| <= cfg.n && Grafted(t, peers, r, cfg.n - |peers|) && WithinCap(cfg.subnetCap, peers, r, t.buckets)
    ensures |peers| < cfg.low && |Candidates(t, peers)| <= cfg.n - |peers| ==>
      forall p :: p in Candidates(t, peers) && p !in r ==> ViolatesCap(cfg.subnetCap, r, t.buckets, p)
    ensures |peers| < cfg.low && cfg.subnetCap == 0 ==> |r| == Min(cfg.n, |peers| + |Candidates(t, peers)|)
  {
    hide WithinCap, ViolatesCap, Joined;
    if |peers| < cfg.low {
      var c := Candidates(t, peers);
      var chosen :| chosen <= c && |chosen| == Min(cfg.n - |peers|, |c|) && Joined(cfg, t, peers, chosen, r);
      JoinedGrafts(cfg, t, peers, c, chosen, cfg.n - |peers|, r);
    }
  }

  /** n of the graftable peers c were chosen, and those joined that the cap let in. */
  lemma JoinedGrafts(cfg: Config, t: Topical, peers: set<Peer>, c: set<Peer>, chosen: set<Peer>, n: nat, r: set<Peer>)
    requires chosen <= c && |chosen| == Min(n, |c|) && Joined(cfg, t, peers, chosen, r)
    requires forall p :: p in c ==> Graftable(t, peers, p) && t.score(p) >= 0.0
    ensures Grafted(t, peers, r, n) && WithinCap(cfg.subnetCap, peers, r, t.buckets) && r - peers <= c
    ensures |c| <= n ==> forall p :: p in c && p !in r ==> ViolatesCap(cfg.subnetCap, r, t.buckets, p)
    ensures cfg.subnetCap == 0 ==> |r| == |peers| + Min(n, |c|)
  {
    hide WithinCap, ViolatesCap;
    SubsetSize(chosen, c);
    assert forall p :: p in chosen ==> p in c && p !in peers;
    JoinedSize(cfg, t, peers, chosen, r);
  }

  lemma JoinedSize(cfg: Config, t: Topical, peers: set<Peer>, chosen: set<Peer>, r: set<Peer>)
    requires Joined(cfg, t, peers, chosen, r) && peers !! chosen
    ensures |r| <= |peers| + |chosen|
    ensures cfg.subnetCap == 0 ==> r == peers + chosen && |r| == |peers| + |chosen|
  {
    hide WithinCap, ViolatesCap;
    UnionSize(peers, chosen);
    SubsetSize(r, peers + chosen);
    if cfg.subnetCap == 0 {
      forall p | p in chosen ensures p in r {
        CapOff(r, t.buckets, p);
      }
      assert r == peers + chosen;
    }
  }

  /** Too few peers: up to n, all candidates if there are few, subject to the subnet cap. */
  method FillLow(cfg: Config, t: Topical, peers: set<Peer>) returns (r: set<Peer>)
    requires Accepted(cfg)
    ensures Filled(cfg, t, peers, r)
    ensures |peers| >= cfg.low ==> r == peers
    ensures |peers| < cfg.low ==> |r| <= cfg.n && Grafted(t, peers, r, cfg.n - |peers|) && WithinCap(cfg.subnetCap, peers, r, t.buckets)
    ensures |peers| < cfg.low && |Candidates(t, peers)| <= cfg.n - |peers| ==>
      forall p :: p in Candidates(t, peers) && p !in r ==> ViolatesCap(cfg.subnetCap, r, t.buckets, p)
    ensures |peers| < cfg.low && cfg.subnetCap == 0 ==> |r| == Min(cfg.n, |peers| + |Candidates(t, peers)|)
  {
    hide WithinCap, ViolatesCap, Grafted;
    r := peers;
    if |peers| < cfg.low {
      var c := set p | p in t.candidates && Graftable(t, peers, p) && t.score(p) >= 0.0;
      assert c == Candidates(t, peers);
      var chosen := RandomPeers(c, cfg.n - |peers|);
      var list := SubnetFilter(cfg.subnetCap, peers, chosen, t.buckets);
      r := peers + list;
      assert Joined(cfg, t, peers, chosen, r);
    }
    FilledFacts(cfg, t, peers, r);
  }

  /** r is an outcome of the outbound step, which looks at meshes of at least low peers only. */
  ghost predicate OutboundFilled(cfg: Config, t: Topical, peers: set<Peer>, r: set<Peer>) {
    if |peers| < cfg.low || |peers * t.outbound| >= cfg.outboundMin then r == peers
    else
      var c := Candidates(t, peers) * t.outbound;
      peers <= r <= peers + c && |r| - |peers| == Min(cfg.outboundMin - |peers * t.outbound|, |c|)
  }

  lemma OutboundFacts(cfg: Config, t: Topical, peers: set<Peer>, r: set<Peer>)
    requires Accepted(cfg) && OutboundFilled(cfg, t, peers, r)
    ensures Grafted(t, peers, r, cfg.outboundMin)
    ensures |peers| < cfg.low || |peers * t.outbound| >= cfg.outboundMin ==> r == peers
    ensures |peers| >= cfg.low && |r * t.outbound| < cfg.outboundMin ==>
      forall p :: p in t.outbound && Graftable(t, peers, p) && t.score(p) >= 0.0 ==> p in r
  {
    if |peers| >= cfg.low && |peers * t.outbound| < cfg.outboundMin {
      var c, list := Candidates(t, peers) * t.outbound, r - peers;
      assert r == peers + list;
      UnionSize(peers, list);
      assert r * t.outbound == peers * t.outbound + list;
      UnionSize(peers * t.outbound, list);
      SubsetSize(list, c);
    }
  }

  /** Too few outbound peers: graft outbound peers up to the minimum, as far as there are any. */
  method FillOutbound(cfg: Config, t: Topical, peers: set<Peer>) returns (r: set<Peer>)
    requires Accepted(cfg)
    ensures OutboundFilled(cfg, t, peers, r)
    ensures Grafted(t, peers, r, cfg.outboundMin)
    ensures |peers| < cfg.low || |peers * t.outbound| >= cfg.outboundMin ==> r == peers
    ensures |peers| >= cfg.low && |r * t.outbound| < cfg.outboundMin ==>
      forall p :: p in t.outbound && Graftable(t, peers, p) && t.score(p) >= 0.0 ==> p in r
  {
    hide Grafted;
    r := peers;
    if |peers| >= cfg.low {
      var outbound := |peers * t.outbound|;
      if outbound < cfg.outboundMin {
        var c := set p | p in t.candidates && Graftable(t, peers, p) && t.score(p) >= 0.0 && p in t.outbound;
        assert c == Candidates(t, peers) * t.outbound;
        var list := RandomPeers(c, cfg.outboundMin - outbound);
        UnionSize(peers, list);
        r := peers + list;
      }
    }
    OutboundFacts(cfg, t, peers, r);
  }

  /** The peers that opportunistic grafting chooses from. */
  ghost function Better(t: Topical, peers: set<Peer>, median: real): (c: set<Peer>)
  {
    set p | p in t.candidates && Graftable(t, peers, p) && t.score(p) > median
  }

  /** r is an outcome of opportunistic grafting, sorted being the ranking of the mesh. */
  ghost predicate Opportune(cfg: Config, t: Topical, peers: set<Peer>, sorted: seq<Peer>, r: set<Peer>) {
    && Ranking(sorted, peers, t.score)
    && if t.opportunity && |peers| > 1 && Median(sorted, t.score) < t.threshold
       then
         var c := Better(t, peers, Median(sorted, t.score));
         exists chosen :: chosen <= c && |chosen| == Min(cfg.opportunistic, |c|) && Joined(cfg, t, peers, chosen, r)
       else r == peers
  }

  lemma OpportuneFacts(cfg: Config, t: Topical, peers: set<Peer>, sorted: seq<Peer>, r: set<Peer>)
    requires NoneNegative(peers, t.score) && Opportune(cfg, t, peers, sorted, r)
    ensures Grafted(t, peers, r, cfg.opportunistic)
    ensures WithinCap(cfg.subnetCap, peers, r, t.buckets)
    ensures !t.opportunity || |peers| <= 1 || Median(sorted, t.score) >= t.threshold ==> r == peers
    ensures forall p :: p in r - peers ==> sorted != [] && t.score(p) > Median(sorted, t.score)
    ensures forall p :: p in r - peers ==> 2 * |set q | q in peers && t.score(q) < t.score(p)| >= |peers|
    ensures t.opportunity && |peers| > 1 && Median(sorted, t.score) < t.threshold
            && |Better(t, peers, Median(sorted, t.score))| <= cfg.opportunistic ==>
      forall p :: p in Better(t, peers, Median(sorted, t.score)) && p !in r ==> ViolatesCap(cfg.subnetCap, r, t.buckets, p)
  {
    hide WithinCap, ViolatesCap, Ranking, Median, Joined;
    if |peers| > 1 {
      RankedMedian(sorted, peers, t.score);
    }
    if t.opportunity && |peers| > 1 && Median(sorted, t.score) < t.threshold {
      var median := Median(sorted, t.score);
      var c := Better(t, peers, median);
      var chosen :| chosen <= c && |chosen| == Min(cfg.opportunistic, |c|) && Joined(cfg, t, peers, chosen, r);
      JoinedGrafts(cfg, t, peers, c, chosen, cfg.opportunistic, r);
      AllAboveHalf(t, peers, sorted, r - peers);
    } else {
      SameWithinCap(cfg.subnetCap, peers, t.buckets);
    }
  }

  lemma AllAboveHalf(t: Topical, peers: set<Peer>, sorted: seq<Peer>, s: set<Peer>)
    requires Ranking(sorted, peers, t.score) && sorted != [] && forall p :: p in s ==> t.score(p) > Median(sorted, t.score)
    ensures forall p :: p in s ==> 2 * |set q | q in peers && t.score(q) < t.score(p)| >= |peers|
  {
    hide Ranking, Median;
    forall p | p in s ensures 2 * |set q | q in peers && t.score(q) < t.score(p)| >= |peers| {
      AboveHalf(sorted, peers, t.score, t.score(p));
    }
  }

  lemma RankedMedian(sorted: seq<Peer>, peers: set<Peer>, score: Score)
    requires NoneNegative(peers, score) && Ranking(sorted, peers, score) && |peers| > 1
    ensures sorted != [] && Median(sorted, score) >= 0.0
  {
    hide Median, NoRepeats, Ascending;
    ListNotNegative(sorted, score);
    MedianNotNegative(sorted, score);
  }

  /**
   Opportunistic grafting: if the median score of the mesh is below the threshold, a few peers above the median come in,
   all there are if there are few, except where the subnet cap forbids it.
   */
  method Opportunistic(cfg: Config, t: Topical, peers: set<Peer>) returns (r: set<Peer>, ghost sorted: seq<Peer>)
    requires NoneNegative(peers, t.score)
    ensures Opportune(cfg, t, peers, sorted, r) && Ranking(sorted, peers, t.score)
    ensures Grafted(t, peers, r, cfg.opportunistic)
    ensures WithinCap(cfg.subnetCap, peers, r, t.buckets)
    ensures !t.opportunity || |peers| <= 1 || Median(sorted, t.score) >= t.threshold ==> r == peers
    ensures forall p :: p in r - peers ==> sorted != [] && t.score(p) > Median(sorted, t.score)
    ensures forall p :: p in r - peers ==> 2 * |set q | q in peers && t.score(q) < t.score(p)| >= |peers|
    ensures t.opportunity && |peers| > 1 && Median(sorted, t.score) < t.threshold
            && |Better(t, peers, Median(sorted, t.score))| <= cfg.opportunistic ==>
      forall p :: p in Better(t, peers, Median(sorted, t.score)) && p !in r ==> ViolatesCap(cfg.subnetCap, r, t.buckets, p)
  {
    hide WithinCap, ViolatesCap, Ascending, NoRepeats, Median, Grafted;
    r := peers;
    var ranked := SortByScore(peers, t.score);
    sorted := ranked;
    assert Ranking(sorted, peers, t.score);
    hide Ranking;
    if t.opportunity && |peers| > 1 {
      RankedMedian(sorted, peers, t.score);
      var median := Median(ranked, t.score);
      if median < t.threshold {
        var c := set p | p in t.candidates && Graftable(t, peers, p) && t.score(p) > median;
        assert c == Better(t, peers, median);
        var chosen := RandomPeers(c, cfg.opportunistic);
        var list := SubnetFilter(cfg.subnetCap, peers, chosen, t.buckets);
        r := peers + list;
        assert Joined(cfg, t, peers, chosen, r);
      }
    }
    OpportuneFacts(cfg, t, peers, sorted, r);
  }

  /** The peers of non-negative score. */
  function Good(t: Topical, peers: set<Peer>): (r: set<Peer>) { set p | p in peers && t.score(p) >= 0.0 }

  /** kept is what the trim leaves of full. */
  ghost predicate Cut(cfg: Config, t: Topical, full: set<Peer>, kept: set<Peer>) {
    if |full| <= cfg.high then kept == full
    else kept <= full && |kept| == cfg.n && |kept * t.outbound| >= Min(|full * t.outbound|, cfg.outboundMin)
  }

  /** The two grafting steps after the trim: nobody leaves, and whoever comes was graftable. */
  ghost predicate GraftedTwice(cfg: Config, t: Topical, kept: set<Peer>, out: set<Peer>, r: set<Peer>) {
    && kept <= out <= r && |r| <= |kept| + cfg.outboundMin + cfg.opportunistic
    && (forall p :: p in r - kept ==> Graftable(t, kept, p) && t.score(p) >= 0.0)
    && (|kept| >= cfg.low && |out * t.outbound| < cfg.outboundMin ==>
          forall p :: p in t.outbound && Graftable(t, kept, p) && t.score(p) >= 0.0 ==> p in out)
  }

  lemma TwoGrafts(cfg: Config, t: Topical, kept: set<Peer>, out: set<Peer>, r: set<Peer>)
    requires Grafted(t, kept, out, cfg.outboundMin) && Grafted(t, out, r, cfg.opportunistic)
    requires |kept| >= cfg.low && |out * t.outbound| < cfg.outboundMin ==>
      forall p :: p in t.outbound && Graftable(t, kept, p) && t.score(p) >= 0.0 ==> p in out
    ensures GraftedTwice(cfg, t, kept, out, r)
  {
  }

  lemma GraftedNotNegative(t: Topical, before: set<Peer>, after: set<Peer>, extra: int)
    requires Grafted(t, before, after, extra) && NoneNegative(before, t.score)
    ensures NoneNegative(after, t.score)
  {
  }

  /** The fill only adds graftable peers, and reaches n at most. */
  lemma FullFacts(cfg: Config, t: Topical, good: set<Peer>, full: set<Peer>)
    requires Accepted(cfg) && Filled(cfg, t, good, full)
    ensures good <= full && (forall p :: p in full - good ==> Graftable(t, good, p) && t.score(p) >= 0.0)
    ensures |full| <= Max(cfg.high, |good|) && (|good| >= cfg.low ==> full == good)
  {
    hide Filled, WithinCap, ViolatesCap;
    FilledFacts(cfg, t, good, full);
  }

  lemma MaintainedBounds(cfg: Config, t: Topical, peers: set<Peer>, full: set<Peer>, kept: set<Peer>, out: set<Peer>, r: set<Peer>)
    requires Accepted(cfg) && Filled(cfg, t, Good(t, peers), full) && Cut(cfg, t, full, kept) && GraftedTwice(cfg, t, kept, out, r)
    ensures NoneNegative(r, t.score)
    ensures |r| <= cfg.high + cfg.outboundMin + cfg.opportunistic
    ensures forall p :: p in r && p !in peers ==> p in t.candidates && p !in t.explicitPeers && !t.backedOff(p)
    ensures |Good(t, peers)| > cfg.high ==> |r| <= cfg.n + cfg.outboundMin + cfg.opportunistic
  {
    hide Filled;
    FullFacts(cfg, t, Good(t, peers), full);
  }

  lemma MaintainedKeeps(cfg: Config, t: Topical, peers: set<Peer>, full: set<Peer>, kept: set<Peer>, out: set<Peer>, r: set<Peer>)
    requires Accepted(cfg) && Filled(cfg, t, Good(t, peers), full) && Cut(cfg, t, full, kept) && GraftedTwice(cfg, t, kept, out, r)
    ensures |Good(t, peers)| <= cfg.high ==> Good(t, peers) <= r
    ensures |Good(t, peers)| > cfg.high ==> |r * peers| >= cfg.n
    ensures |Good(t, peers)| > cfg.high ==> |r * t.outbound| >= Min(|Good(t, peers) * t.outbound|, cfg.outboundMin)
  {
    hide Filled;
    FullFacts(cfg, t, Good(t, peers), full);
    if |Good(t, peers)| > cfg.high {
      SubsetSize(kept, r * peers);
      SubsetSize(kept * t.outbound, r * t.outbound);
    }
  }

  lemma MaintainedFills(cfg: Config, t: Topical, peers: set<Peer>, full: set<Peer>, kept: set<Peer>, out: set<Peer>, r: set<Peer>)
    requires Accepted(cfg) && Filled(cfg, t, Good(t, peers), full) && Cut(cfg, t, full, kept) && GraftedTwice(cfg, t, kept, out, r)
    ensures |Good(t, peers)| < cfg.low && cfg.subnetCap == 0 ==>
      |r| >= Min(cfg.n, |Good(t, peers)| + |Candidates(t, Good(t, peers))|)
    ensures |Good(t, peers)| < cfg.low && |Candidates(t, Good(t, peers))| <= cfg.n - |Good(t, peers)| ==>
      forall p :: p in Candidates(t, Good(t, peers)) && p !in r ==> ViolatesCap(cfg.subnetCap, r, t.buckets, p)
  {
    hide Filled, WithinCap, ViolatesCap, Candidates;
    var good := Good(t, peers);
    FullFacts(cfg, t, good, full);
    FilledFacts(cfg, t, good, full);
    if |good| < cfg.low {
      assert kept == full;
      SubsetSize(full, r);
      forall p | ViolatesCap(cfg.subnetCap, full, t.buckets, p) ensures ViolatesCap(cfg.subnetCap, r, t.buckets, p) {
        ViolationPersists(cfg.subnetCap, full, r, t.buckets, p);
      }
    }
  }

  /** If the fill stopped short without a cap, every candidate is in. */
  lemma ShortFill(cfg: Config, t: Topical, good: set<Peer>, full: set<Peer>)
    requires Accepted(cfg) && Filled(cfg, t, good, full) && |full| < cfg.low && cfg.subnetCap == 0
    ensures Candidates(t, good) <= full
  {
    hide Filled, WithinCap, ViolatesCap;
    FilledFacts(cfg, t, good, full);
    forall p | p in Candidates(t, good) ensures p in full {
      CapOff(full, t.buckets, p);
    }
  }

  lemma MaintainedQuota(cfg: Config, t: Topical, peers: set<Peer>, full: set<Peer>, kept: set<Peer>, out: set<Peer>, r: set<Peer>)
    requires Accepted(cfg) && Filled(cfg, t, Good(t, peers), full) && Cut(cfg, t, full, kept) && GraftedTwice(cfg, t, kept, out, r)
    ensures |full| >= cfg.low && |r * t.outbound| < cfg.outboundMin ==>
      forall p :: p in t.outbound && p in Candidates(t, Good(t, peers)) ==> p in r
    ensures (|Good(t, peers)| >= cfg.low || cfg.subnetCap == 0) && |r * t.outbound| < cfg.outboundMin ==>
      forall p :: p in t.outbound && p in Candidates(t, Good(t, peers)) ==> p in r
  {
    hide Filled;
    var good := Good(t, peers);
    FullFacts(cfg, t, good, full);
    SubsetSize(out * t.outbound, r * t.outbound);
    if |full| >= cfg.low && |r * t.outbound| < cfg.outboundMin {
      forall p | p in t.outbound && p in Candidates(t, good) ensures p in r {
        assert p !in kept ==> Graftable(t, kept, p);
      }
    } else if cfg.subnetCap == 0 && |full| < cfg.low {
      ShortFill(cfg, t, good, full);
    }
    SubsetSize(good, full);
  }

  /**
   Everything a heartbeat does to one simple mesh; full is the mesh after the fill. The outbound quota is met or every outbound
   candidate is in, unless the subnet cap stopped the fill short of mesh_n_low.
   */
  method Maintain(cfg: Config, t: Topical, peers: set<Peer>) returns (r: set<Peer>, ghost full: set<Peer>)
    requires Accepted(cfg) && (|Good(t, peers)| > cfg.high ==> cfg.retainScores <= |Good(t, peers)|)
    ensures NoneNegative(r, t.score)
    ensures |r| <= cfg.high + cfg.outboundMin + cfg.opportunistic
    ensures forall p :: p in r && p !in peers ==> p in t.candidates && p !in t.explicitPeers && !t.backedOff(p)
    ensures |Good(t, peers)| > cfg.high ==> |r| <= cfg.n + cfg.outboundMin + cfg.opportunistic
    ensures |Good(t, peers)| <= cfg.high ==> Good(t, peers) <= r
    ensures |Good(t, peers)| > cfg.high ==> |r * peers| >= cfg.n
    ensures |Good(t, peers)| > cfg.high ==> |r * t.outbound| >= Min(|Good(t, peers) * t.outbound|, cfg.outboundMin)
    ensures |Good(t, peers)| < cfg.low && cfg.subnetCap == 0 ==>
      |r| >= Min(cfg.n, |Good(t, peers)| + |Candidates(t, Good(t, peers))|)
    ensures |Good(t, peers)| < cfg.low && |Candidates(t, Good(t, peers))| <= cfg.n - |Good(t, peers)| ==>
      forall p :: p in Candidates(t, Good(t, peers)) && p !in r ==> ViolatesCap(cfg.subnetCap, r, t.buckets, p)
    ensures Filled(cfg, t, Good(t, peers), full)
    ensures |full| >= cfg.low && |r * t.outbound| < cfg.outboundMin ==>
      forall p :: p in t.outbound && p in Candidates(t, Good(t, peers)) ==> p in r
    ensures (|Good(t, peers)| >= cfg.low || cfg.subnetCap == 0) && |r * t.outbound| < cfg.outboundMin ==>
      forall p :: p in t.outbound && p in Candidates(t, Good(t, peers)) ==> p in r
  {
    hide Filled, OutboundFilled, Opportune, Grafted, GraftedTwice, WithinCap, ViolatesCap, WorstDropped, Ranking, Median, Better,
      Candidates;
    var good := Good(t, peers);
    var filled := FillLow(cfg, t, good);
    full := filled;
    FullFacts(cfg, t, good, full);
    var kept := filled;
    if |filled| > cfg.high {
      ghost var best;
      kept, best := Trim(cfg, filled, t.outbound, t.score);
    }
    var out := FillOutbound(cfg, t, kept);
    GraftedNotNegative(t, kept, out, cfg.outboundMin);
    ghost var sorted;
    r, sorted := Opportunistic(cfg, t, out);
    TwoGrafts(cfg, t, kept, out, r);
    MaintainedBounds(cfg, t, peers, full, kept, out, r);
    MaintainedKeeps(cfg, t, peers, full, kept, out, r);
    MaintainedFills(cfg, t, peers, full, kept, out, r);
    MaintainedQuota(cfg, t, peers, full, kept, out, r);
  }

  const TIGHT: Config := Config(3, 3, 3, 1, 1, 0, 1)

  /** Peers 3, 4 and 5 can be grafted; 3 shares a bucket with member 1, 4 is outbound, 5 scores above the rest. */
  const CROWDED: Topical := Topical({3, 4, 5}, {}, p => false, p => if p == 5 then 2.0 else 0.0, {4},
                                    p => if p == 1 || p == 3 then {0} else {}, true, 1.0)

  lemma CrowdedCandidates()
    ensures Candidates(CROWDED, {1, 2}) == {3, 4, 5} && Better(CROWDED, {1, 2}, 0.0) == {5}
  {
  }

  lemma CrowdedFill()
    ensures Filled(TIGHT, CROWDED, {1, 2}, {1, 2})
  {
    hide Candidates, WithinCap;
    var full := {1, 2};
    CrowdedCandidates();
    SameWithinCap(1, full, CROWDED.buckets);
    assert InBucket(full, CROWDED.buckets, 0) == {1};
    assert 0 in CROWDED.buckets(3) && Count(full, CROWDED.buckets, 0) == 1;
    assert Joined(TIGHT, CROWDED, full, {3}, full);
    assert |{3}| == 1 && |{3, 4, 5}| == 3;
  }

  lemma CrowdedOpportunity()
    ensures Opportune(TIGHT, CROWDED, {1, 2}, [1, 2], {1, 2, 5})
  {
    hide Candidates, WithinCap, ViolatesCap, Better, Ranking, Median;
    var full := {1, 2};
    CrowdedCandidates();
    CrowdedCap();
    CrowdedRanking();
    assert {1, 2, 5} == full + {5};
    assert Joined(TIGHT, CROWDED, full, {5}, {1, 2, 5});
    assert |{5}| == 1;
  }

  lemma CrowdedRanking()
    ensures Ranking([1, 2], {1, 2}, CROWDED.score) && Median([1, 2], CROWDED.score) == 0.0
  {
    assert SetOfPeers([1, 2]) == {1, 2};
  }

  lemma CrowdedCap()
    ensures WithinCap(1, {1, 2}, {1, 2, 5}, CROWDED.buckets)
  {
    hide Count;
    assert {1, 2} + {5} == {1, 2, 5};
    forall b ensures Count({1, 2, 5}, CROWDED.buckets, b) == Count({1, 2}, CROWDED.buckets, b) {
      CountMore({1, 2}, CROWDED.buckets, 5, b);
    }
  }

  /**
   With a subnet cap the quota can be missed on a mesh of mesh_n_low peers: the one peer drawn for the fill sits in a full bucket, so
   the outbound step is skipped, and opportunistic grafting then reaches mesh_n_low with another peer than the outbound candidate.
   */
  lemma QuotaSkipped()
    ensures Accepted(TIGHT) && Good(CROWDED, {1, 2}) == {1, 2}
    ensures Filled(TIGHT, CROWDED, {1, 2}, {1, 2}) && |{1, 2}| <= TIGHT.high
    ensures OutboundFilled(TIGHT, CROWDED, {1, 2}, {1, 2}) && Opportune(TIGHT, CROWDED, {1, 2}, [1, 2], {1, 2, 5})
    ensures |{1, 2, 5}| >= TIGHT.low && |{1, 2, 5} * CROWDED.outbound| < TIGHT.outboundMin
    ensures 4 in CROWDED.outbound && 4 in Candidates(CROWDED, {1, 2}) && 4 !in {1, 2, 5}
  {
    hide Filled, Opportune;
    CrowdedFill();
    CrowdedOpportunity();
    assert {1, 2, 5} * CROWDED.outbound == {};
  }
}
