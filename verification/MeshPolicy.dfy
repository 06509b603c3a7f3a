/**
 Peer selection of the heartbeat in behaviour.rs: filling under a subnet cap, trimming composites, and the whole
 per-topic step for simple meshes. Scores are fixed numbers during a heartbeat; random choices are arbitrary.
 */
module MeshPolicy {
  import opened Network
  import opened CompositeMesh

  datatype Config = Config(n: nat, low: nat, high: nat, outboundMin: nat, subnetCap: nat, retainScores: nat, opportunistic: nat)

  /** The mesh constraints that Config::build checks. */
  predicate Accepted(c: Config) { c.outboundMin <= c.low <= c.n <= c.high && c.outboundMin * 2 <= c.n }

  type Score = Peer -> real
  type Bucket = int
  type Buckets = Peer -> set<Bucket>

  function Min(a: int, b: int): (m: int) { if a <= b then a else b }

  function Max(a: int, b: int): (m: int) { if a <= b then b else a }

  // ----- small facts about finite sets -----

  lemma SubsetSize<T>(a: set<T>, b: set<T>)
    requires a <= b
    ensures |a| <= |b| && (|a| == |b| ==> a == b)
  {
    var d := b - a;
    assert b == a + d;
    assert |b| == |a| + |d|;
  }

  lemma UnionSize<T>(a: set<T>, b: set<T>)
    ensures |a + b| <= |a| + |b| && (a !! b ==> |a + b| == |a| + |b|)
  {
    assert a + b == a + (b - a);
    SubsetSize(b - a, b);
    assert a !! b ==> b - a == b;
  }

  predicate NoRepeats(s: seq<Peer>) { forall i, j :: 0 <= i < j < |s| ==> s[i] != s[j] }

  function SetOfPeers(s: seq<Peer>): (r: set<Peer>) { set p | p in s }

  lemma {:induction false} SizeOfSet(s: seq<Peer>)
    requires NoRepeats(s)
    ensures |SetOfPeers(s)| == |s|
  {
    if s == [] {
      assert SetOfPeers(s) == {};
    } else {
      var t, x := s[..|s| - 1], s[|s| - 1];
      SizeOfSet(t);
      assert s == t + [x];
      assert SetOfPeers(s) == SetOfPeers(t) + {x};
      assert x !in t;
    }
  }

  // ----- random choices -----

  /** Any element. */
  method Pick<T(==)>(s: set<T>) returns (x: T)
    requires s != {}
    ensures x in s
  {
    x :| x in s;
  }

  /** get_random_peers among candidates that pass the filter: some n of them, or all if there are fewer. */
  method RandomPeers(candidates: set<Peer>, n: nat) returns (r: set<Peer>)
    ensures r <= candidates && |r| == Min(n, |candidates|)
  {
    r := {};
    var left := candidates;
    while |r| < n && left != {}
      invariant r + left == candidates && r !! left && |r| <= n
      invariant |candidates| == |r| + |left|
      decreases |left|
    {
      var p := Pick(left);
      left := left - {p};
      r := r + {p};
    }
  }

  lemma AppendPeer(r: seq<Peer>, p: Peer)
    requires NoRepeats(r) && p !in SetOfPeers(r)
    ensures NoRepeats(r + [p]) && SetOfPeers(r + [p]) == SetOfPeers(r) + {p}
  {
  }

  lemma NoPeers()
    ensures NoRepeats([]) && SetOfPeers([]) == {}
  {
  }

  /** Any order of a set. */
  method Shuffled(s: set<Peer>) returns (r: seq<Peer>)
    ensures NoRepeats(r) && SetOfPeers(r) == s && |r| == |s|
  {
    hide NoRepeats, SetOfPeers;
    r := [];
    NoPeers();
    var left := s;
    while left != {}
      invariant NoRepeats(r) && SetOfPeers(r) == s - left && left <= s && |r| + |left| == |s|
      decreases |left|
    {
      var p := Pick(left);
      AppendPeer(r, p);
      left := left - {p};
      r := r + [p];
    }
  }

  ghost predicate Ascending(s: seq<Peer>, score: Score) { forall i, j :: 0 <= i < j < |s| ==> score(s[i]) <= score(s[j]) }

  /** All of s score at most what all of left do. */
  ghost predicate AllBelow(s: seq<Peer>, left: set<Peer>, score: Score) {
    forall i, q :: 0 <= i < |s| && q in left ==> score(s[i]) <= score(q)
  }

  lemma AscendingStep(r: seq<Peer>, left: set<Peer>, score: Score, p: Peer)
    requires Ascending(r, score) && AllBelow(r, left, score) && p in left && forall q :: q in left ==> score(p) <= score(q)
    ensures Ascending(r + [p], score) && AllBelow(r + [p], left - {p}, score)
  {
  }

  lemma AscendingNothing(left: set<Peer>, score: Score)
    ensures Ascending([], score) && AllBelow([], left, score)
  {
  }

  /** sort_by score, worst first, ties in any order. */
  method SortByScore(s: set<Peer>, score: Score) returns (r: seq<Peer>)
    ensures NoRepeats(r) && SetOfPeers(r) == s && |r| == |s| && Ascending(r, score)
  {
    hide NoRepeats, SetOfPeers, Ascending, AllBelow;
    r := [];
    NoPeers();
    var left := s;
    AscendingNothing(left, score);
    while left != {}
      invariant NoRepeats(r) && SetOfPeers(r) == s - left && left <= s && |r| + |left| == |s|
      invariant Ascending(r, score) && AllBelow(r, left, score)
      decreases |left|
    {
      var p := Worst(left, score);
      AppendPeer(r, p);
      AscendingStep(r, left, score, p);
      left := left - {p};
      r := r + [p];
    }
  }

  method Worst(s: set<Peer>, score: Score) returns (p: Peer)
    requires s != {}
    ensures p in s && forall q :: q in s ==> score(p) <= score(q)
  {
    p := Pick(s);
    var left := s - {p};
    while left != {}
      invariant p in s && left <= s && forall q :: q in s && q !in left ==> score(p) <= score(q)
      decreases |left|
    {
      var q := Pick(left);
      left := left - {q};
      if score(q) < score(p) {
        p := q;
      }
    }
  }

  // ----- the subnet cap -----

  function InBucket(members: set<Peer>, buckets: Buckets, b: Bucket): (r: set<Peer>) { set q | q in members && b in buckets(q) }

  function Count(members: set<Peer>, buckets: Buckets, b: Bucket): (n: nat) { |InBucket(members, buckets, b)| }

  /** graft_would_violate_subnet_cap; a peer without known addresses never does. */
  predicate ViolatesCap(cap: nat, members: set<Peer>, buckets: Buckets, p: Peer) {
    cap > 0 && exists b :: b in buckets(p) && Count(members, buckets, b) >= cap
  }

  lemma CountMore(members: set<Peer>, buckets: Buckets, p: Peer, b: Bucket)
    requires p !in members
    ensures Count(members + {p}, buckets, b) == Count(members, buckets, b) + if b in buckets(p) then 1 else 0
  {
    var i := InBucket(members, buckets, b);
    if b in buckets(p) {
      assert InBucket(members + {p}, buckets, b) == i + {p};
    } else {
      assert InBucket(members + {p}, buckets, b) == i;
    }
  }

  lemma CountMonotone(a: set<Peer>, c: set<Peer>, buckets: Buckets, b: Bucket)
    requires a <= c
    ensures Count(a, buckets, b) <= Count(c, buckets, b)
  {
    SubsetSize(InBucket(a, buckets, b), InBucket(c, buckets, b));
  }

  lemma ViolationPersists(cap: nat, a: set<Peer>, c: set<Peer>, buckets: Buckets, p: Peer)
    requires a <= c && ViolatesCap(cap, a, buckets, p)
    ensures ViolatesCap(cap, c, buckets, p)
  {
    hide Count;
    var b :| b in buckets(p) && Count(a, buckets, b) >= cap;
    CountMonotone(a, c, buckets, b);
  }

  /** Going from before to after took no bucket above the larger of the cap and its count before. */
  ghost predicate WithinCap(cap: nat, before: set<Peer>, after: set<Peer>, buckets: Buckets) {
    cap > 0 ==> forall b :: Count(after, buckets, b) <= Max(cap, Count(before, buckets, b))
  }

  /** The running counts of accepted buckets. */
  function Get(counts: map<Bucket, nat>, b: Bucket): (n: nat) { if b in counts then counts[b] else 0 }

  function Bumped(counts: map<Bucket, nat>, bs: set<Bucket>): (r: map<Bucket, nat>)
  {
    map b | b in counts.Keys + bs :: Get(counts, b) + if b in bs then 1 else 0
  }

  ghost predicate CountsOf(counts: map<Bucket, nat>, members: set<Peer>, buckets: Buckets) {
    forall b :: Get(counts, b) == Count(members, buckets, b)
  }

  lemma BumpedCounts(counts: map<Bucket, nat>, members: set<Peer>, buckets: Buckets, p: Peer)
    requires CountsOf(counts, members, buckets) && p !in members
    ensures CountsOf(Bumped(counts, buckets(p)), members + {p}, buckets)
  {
    hide Count;
    forall b ensures Get(Bumped(counts, buckets(p)), b) == Count(members + {p}, buckets, b) {
      CountMore(members, buckets, p, b);
      assert Get(counts, b) == Count(members, buckets, b);
    }
  }

  /** Seeds the counts from the current members. */
  method SeedCounts(members: set<Peer>, buckets: Buckets) returns (counts: map<Bucket, nat>)
    ensures CountsOf(counts, members, buckets)
  {
    hide Count, Bumped;
    counts := map[];
    ghost var done: set<Peer> := {};
    var left := members;
    NoCounts(buckets);
    while left != {}
      invariant CountsOf(counts, done, buckets) && done + left == members && done !! left
      decreases |left|
    {
      var p := Pick(left);
      BumpedCounts(counts, done, buckets, p);
      counts := Bumped(counts, buckets(p));
      left := left - {p};
      done := done + {p};
    }
    assert done == members;
  }

  lemma NoCounts(buckets: Buckets)
    ensures CountsOf(map[], {}, buckets)
  {
    forall b ensures Count({}, buckets, b) == 0 {
      assert InBucket({}, buckets, b) == {};
    }
  }

  /** Whether a candidate's buckets are all below the cap, by the running counts. */
  predicate Blocked(cap: nat, counts: map<Bucket, nat>,
                    bs: set<Bucket>) { cap > 0 && exists b :: b in bs && Get(counts, b) >= cap }

  lemma BlockedIsViolation(cap: nat, counts: map<Bucket, nat>, members: set<Peer>, buckets: Buckets, p: Peer)
    requires cap > 0 ==> CountsOf(counts, members, buckets)
    ensures Blocked(cap, counts, buckets(p)) <==> ViolatesCap(cap, members, buckets, p)
  {
    hide Count;
  }

  /** Admitting a candidate that is not blocked stays within the cap. */
  lemma AdmitWithinCap(cap: nat, before: set<Peer>, members: set<Peer>, buckets: Buckets, p: Peer)
    requires WithinCap(cap, before, members, buckets) && !ViolatesCap(cap, members, buckets, p) && p !in members
    ensures WithinCap(cap, before, members + {p}, buckets)
  {
    hide Count;
    forall b | cap > 0 ensures Count(members + {p}, buckets, b) <= Max(cap, Count(before, buckets, b)) {
      CountMore(members, buckets, p, b);
    }
  }

  /** subnet_filter: candidates in any order, each admitted unless one of its buckets is full. */
  method SubnetFilter(cap: nat, existing: set<Peer>, candidates: set<Peer>, buckets: Buckets) returns (kept: set<Peer>)
    requires existing !! candidates
    ensures kept <= candidates && WithinCap(cap, existing, existing + kept, buckets)
    ensures forall p :: p in candidates && p !in kept ==> ViolatesCap(cap, existing + kept, buckets, p)
  {
    hide Count, ViolatesCap, CountsOf, WithinCap, Bumped, Blocked;
    SameWithinCap(cap, existing, buckets);
    if cap == 0 {
      NoCap(existing, existing + candidates, buckets);
      return candidates;
    }
    kept := {};
    assert existing + kept == existing;
    var counts := SeedCounts(existing, buckets);
    var left := candidates;
    while left != {}
      invariant kept <= candidates && left <= candidates && kept !! left
      invariant CountsOf(counts, existing + kept, buckets) && WithinCap(cap, existing, existing + kept, buckets)
      invariant forall p :: p in candidates && p !in kept && p !in left ==> ViolatesCap(cap, existing + kept, buckets, p)
      decreases |left|
    {
      var p := Pick(left);
      left := left - {p};
      BlockedIsViolation(cap, counts, existing + kept, buckets, p);
      if !Blocked(cap, counts, buckets(p)) {
        BumpedCounts(counts, existing + kept, buckets, p);
        AdmitWithinCap(cap, existing, existing + kept, buckets, p);
        forall q | q in candidates && q !in kept && q !in left && q != p ensures ViolatesCap(cap, existing + kept + {p}, buckets, q) {
          ViolationPersists(cap, existing + kept, existing + kept + {p}, buckets, q);
        }
        assert existing + kept + {p} == existing + (kept + {p});
        counts := Bumped(counts, buckets(p));
        kept := kept + {p};
      }
    }
  }

  lemma CapOff(s: set<Peer>, buckets: Buckets, p: Peer)
    ensures !ViolatesCap(0, s, buckets, p)
  {
  }

  lemma SameWithinCap(cap: nat, s: set<Peer>, buckets: Buckets)
    ensures WithinCap(cap, s, s, buckets)
  {
  }

  lemma NoCap(a: set<Peer>, c: set<Peer>, buckets: Buckets)
    ensures WithinCap(0, a, c, buckets)
  {
  }

  // ----- filling a composite -----

  /** What a composite fill may draw from. */
  datatype Pool = Pool(topics: map<Peer, set<Topic>>, explicitPeers: set<Peer>, backedOff: Peer -> bool, score: Score, buckets: Buckets)

  predicate Eligible(pool: Pool, existing: set<Peer>, slices: seq<Topic>, p: Peer) {
    && p in pool.topics && p !in existing && p !in pool.explicitPeers && !pool.backedOff(p) && pool.score(p) >= 0.0
    && (CoversEvery(pool.topics[p], slices) || CoversSome(pool.topics[p], slices))
  }

  /** Peers newly classified: same if they cover every slice, broker otherwise. */
  ghost predicate Classified(pool: Pool, slices: seq<Topic>, same: set<Peer>, broker: set<Peer>) {
    && (forall p :: p in same ==> p in pool.topics && CoversEvery(pool.topics[p], slices))
    && (forall p :: p in broker ==> p in pool.topics && !CoversEvery(pool.topics[p], slices))
  }

  /** What has been added so far, the peers in left not looked at yet. */
  ghost predicate Filling(pool: Pool, cap: nat, slices: seq<Topic>, existing: set<Peer>, same: set<Peer>,
                          broker: set<Peer>, left: set<Peer>) {
    && same !! broker && existing !! (same + broker) && left !! (same + broker)
    && (forall p :: p in same + broker ==> Eligible(pool, existing, slices, p))
    && Classified(pool, slices, same, broker)
    && WithinCap(cap, existing, existing + (same + broker), pool.buckets)
    && forall p :: Eligible(pool, existing, slices, p) && p !in same + broker && p !in left ==>
         ViolatesCap(cap, existing + (same + broker), pool.buckets, p)
  }

  lemma FillingStart(pool: Pool, cap: nat, slices: seq<Topic>, existing: set<Peer>)
    ensures Filling(pool, cap, slices, existing, {}, {}, pool.topics.Keys)
  {
    hide Count, ViolatesCap, WithinCap, CoversEvery, CoversSome;
    assert existing + ({} + {}) == existing;
    SameWithinCap(cap, existing, pool.buckets);
  }

  lemma FillingSkips(pool: Pool, cap: nat, slices: seq<Topic>, existing: set<Peer>, same: set<Peer>,
                     broker: set<Peer>, left: set<Peer>, p: Peer)
    requires Filling(pool, cap, slices, existing, same, broker, left) && p in left
    requires Eligible(pool, existing, slices, p) ==> ViolatesCap(cap, existing + (same + broker), pool.buckets, p)
    ensures Filling(pool, cap, slices, existing, same, broker, left - {p})
  {
    hide Count, ViolatesCap, WithinCap, CoversEvery, CoversSome, Eligible;
  }

  lemma FillingAdmits(pool: Pool, cap: nat, slices: seq<Topic>, existing: set<Peer>, same: set<Peer>,
                      broker: set<Peer>, left: set<Peer>, p: Peer)
    requires Filling(pool, cap, slices, existing, same, broker, left) && p in left
    requires Eligible(pool, existing, slices, p) && !ViolatesCap(cap, existing + (same + broker), pool.buckets, p)
    ensures CoversEvery(pool.topics[p], slices) ==> Filling(pool, cap, slices, existing, same + {p}, broker, left - {p})
    ensures !CoversEvery(pool.topics[p], slices) ==> Filling(pool, cap, slices, existing, same, broker + {p}, left - {p})
  {
    hide Count, ViolatesCap, WithinCap, CoversEvery, CoversSome, Eligible;
    EligibleOutside(pool, existing, slices, p);
    var all := existing + (same + broker);
    assert p !in all;
    AdmitWithinCap(cap, existing, all, pool.buckets, p);
    assert all + {p} == existing + (same + {p} + broker) && all + {p} == existing + (same + (broker + {p}));
    forall q | ViolatesCap(cap, all, pool.buckets, q) ensures ViolatesCap(cap, all + {p}, pool.buckets, q) {
      ViolationPersists(cap, all, all + {p}, pool.buckets, q);
    }
  }

  lemma EligibleOutside(pool: Pool, existing: set<Peer>, slices: seq<Topic>, p: Peer)
    requires Eligible(pool, existing, slices, p)
    ensures p in pool.topics && p !in existing
  {
  }

  /** Step 2 of the composite pass: peers in any order until enough are admitted. */
  method FillComposite(pool: Pool, cap: nat, slices: seq<Topic>, existing: set<Peer>,
                       needed: nat) returns (same: set<Peer>, broker: set<Peer>)
    ensures same !! broker && existing !! (same + broker) && |same| + |broker| <= needed
    ensures forall p :: p in same + broker ==> Eligible(pool, existing, slices, p)
    ensures Classified(pool, slices, same, broker)
    ensures WithinCap(cap, existing, existing + (same + broker), pool.buckets)
    ensures |same| + |broker| < needed ==> Exhausted(pool, cap, slices, existing, same + broker)
  {
    hide Count, ViolatesCap, CountsOf, WithinCap, Bumped, Blocked, CoversEvery, CoversSome, Eligible, Filling, Classified;
    same, broker := {}, {};
    FillingStart(pool, cap, slices, existing);
    assert existing + (same + broker) == existing;
    var counts: map<Bucket, nat> := map[];
    if cap > 0 {
      counts := SeedCounts(existing, pool.buckets);
    }
    var left := pool.topics.Keys;
    while left != {} && |same| + |broker| < needed
      invariant |same| + |broker| <= needed && left <= pool.topics.Keys
      invariant Filling(pool, cap, slices, existing, same, broker, left)
      invariant cap > 0 ==> CountsOf(counts, existing + (same + broker), pool.buckets)
      decreases |left|
    {
      var p := Pick(left);
      BlockedIsViolation(cap, counts, existing + (same + broker), pool.buckets, p);
      FillingFresh(pool, cap, slices, existing, same, broker, left, p);
      if Eligible(pool, existing, slices, p) && !Blocked(cap, counts, pool.buckets(p)) {
        EligibleOutside(pool, existing, slices, p);
        FillingAdmits(pool, cap, slices, existing, same, broker, left, p);
        ghost var all := existing + (same + broker);
        if cap > 0 {
          BumpedCounts(counts, all, pool.buckets, p);
          counts := Bumped(counts, pool.buckets(p));
        }
        assert all + {p} == existing + (same + {p} + broker) && all + {p} == existing + (same + (broker + {p}));
        if CoversEvery(pool.topics[p], slices) {
          same := same + {p};
        } else {
          broker := broker + {p};
        }
      } else {
        FillingSkips(pool, cap, slices, existing, same, broker, left, p);
      }
      left := left - {p};
    }
    FillingDone(pool, cap, slices, existing, same, broker, left);
  }

  lemma FillingFresh(pool: Pool, cap: nat, slices: seq<Topic>, existing: set<Peer>, same: set<Peer>,
                     broker: set<Peer>, left: set<Peer>, p: Peer)
    requires Filling(pool, cap, slices, existing, same, broker, left) && p in left
    ensures p !in same && p !in broker
  {
    hide Count, ViolatesCap, WithinCap, CoversEvery, CoversSome, Eligible;
  }

  /** Every eligible peer that was not added is held back by a full bucket. */
  ghost predicate Exhausted(pool: Pool, cap: nat, slices: seq<Topic>, existing: set<Peer>, added: set<Peer>) {
    forall p :: Eligible(pool, existing, slices, p) && p !in added ==> ViolatesCap(cap, existing + added, pool.buckets, p)
  }

  lemma FillingDone(pool: Pool, cap: nat, slices: seq<Topic>, existing: set<Peer>, same: set<Peer>,
                    broker: set<Peer>, left: set<Peer>)
    requires Filling(pool, cap, slices, existing, same, broker, left)
    ensures same !! broker && existing !! (same + broker)
    ensures forall p :: p in same + broker ==> Eligible(pool, existing, slices, p)
    ensures Classified(pool, slices, same, broker)
    ensures WithinCap(cap, existing, existing + (same + broker), pool.buckets)
    ensures left == {} ==> Exhausted(pool, cap, slices, existing, same + broker)
  {
    hide Count, ViolatesCap, WithinCap, CoversEvery, CoversSome, Eligible, Classified;
  }

  // ----- trimming a composite -----

  /** Everyone dropped scores at most what everyone kept does. */
  ghost predicate WorstDropped(all: set<Peer>, kept: set<Peer>, score: Score) {
    kept <= all && forall d, k :: d in all - kept && k in kept ==> score(d) <= score(k)
  }

  lemma PrefixDropped(s: seq<Peer>, k: nat, score: Score)
    requires k <= |s| && NoRepeats(s) && Ascending(s, score)
    ensures var all, kept := SetOfPeers(s), SetOfPeers(s[k..]);
      all - SetOfPeers(s[..k]) == kept && |kept| == |s| - k && WorstDropped(all, kept, score)
  {
    assert s == s[..k] + s[k..];
    assert NoRepeats(s[k..]);
    SizeOfSet(s[k..]);
    var all, kept := SetOfPeers(s), SetOfPeers(s[k..]);
    forall p | p in all - SetOfPeers(s[..k]) ensures p in kept {
      assert p in s[..k] + s[k..];
    }
    forall p | p in kept ensures p in all && p !in SetOfPeers(s[..k]) {
      var j :| 0 <= j < |s[k..]| && s[k..][j] == p;
      assert s[k + j] == p;
    }
    forall d, q | d in all - kept && q in kept ensures score(d) <= score(q) {
      assert d in s[..k] + s[k..];
      var i :| 0 <= i < k && s[..k][i] == d;
      var j :| 0 <= j < |s[k..]| && s[k..][j] == q;
      assert s[i] == d && s[k + j] == q;
    }
  }

  /** Step 3 of the composite pass: down to exactly n, brokers first, worst scores first. */
  method TrimComposite(same: set<Peer>, broker: set<Peer>, n: nat, score: Score) returns (same': set<Peer>, broker': set<Peer>)
    requires same !! broker && |same| + |broker| >= n
    ensures |same'| + |broker'| == n && WorstDropped(same, same', score) && WorstDropped(broker, broker', score)
    ensures same' != same ==> broker' == {}
  {
    hide WorstDropped, Ascending, NoRepeats;
    var excess := |same| + |broker| - n;
    var brokers := SortByScore(broker, score);
    var sames := SortByScore(same, score);
    var drop := (brokers + sames)[..excess];
    var b := Min(excess, |brokers|);
    PrefixDropped(brokers, b, score);
    PrefixDropped(sames, excess - b, score);
    SplitDrop(brokers, sames, excess);
    broker' := broker - SetOfPeers(drop);
    same' := same - SetOfPeers(drop);
  }

  lemma SplitDrop(brokers: seq<Peer>, sames: seq<Peer>, excess: nat)
    requires excess <= |brokers| + |sames| && SetOfPeers(brokers) !! SetOfPeers(sames)
    ensures var drop, b := (brokers + sames)[..excess], Min(excess, |brokers|);
      && SetOfPeers(brokers) - SetOfPeers(drop) == SetOfPeers(brokers) - SetOfPeers(brokers[..b])
      && SetOfPeers(sames) - SetOfPeers(drop) == SetOfPeers(sames) - SetOfPeers(sames[..excess - b])
  {
    var drop, b := (brokers + sames)[..excess], Min(excess, |brokers|);
    assert drop == brokers[..b] + sames[..excess - b];
    forall p ensures p in drop <==> p in brokers[..b] || p in sames[..excess - b] {
    }
    forall p | p in sames[..excess - b] ensures p in SetOfPeers(sames) {
    }
    forall p | p in brokers[..b] ensures p in SetOfPeers(brokers) {
    }
  }
}
