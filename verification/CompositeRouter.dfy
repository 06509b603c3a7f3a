/** The router operations of behaviour.rs on composite subscriptions. */
module CompositeRouter {
  import opened Network
  import opened Bitmask
  import opened CompositeMesh
  import opened MeshPolicy

  // ----- joining -----

  /** What join_composite looks at when it picks peers for a composite. */
  ghost predicate Willing(topics: map<Peer, set<Topic>>, backedOff: Peer -> bool, slices: seq<Topic>, every: bool, p: Peer) {
    p in topics && !backedOff(p) && if every then CoversEvery(topics[p], slices) else CoversSome(topics[p], slices)
  }

  /** The choice of join_composite: at most n peers, full coverers first. */
  ghost predicate Chosen(c: Composite, topics: map<Peer, set<Topic>>, backedOff: Peer -> bool, n: nat) {
    && c.same !! c.broker && |c.same| + |c.broker| <= n
    && (forall p :: p in c.same ==> Willing(topics, backedOff, c.slices, true, p))
    && (forall p :: p in c.broker ==> Willing(topics, backedOff, c.slices, false, p))
    && (c.broker != {} || |c.same| < n ==> forall p :: Willing(topics, backedOff, c.slices, true, p) ==> p in c.same)
    && (|c.same| + |c.broker| < n ==> forall p :: Willing(topics, backedOff, c.slices, false, p) ==> p in c.same + c.broker)
  }

  /** Whoever is chosen was known, not backed off, and covers every slice, or as a broker one of them. */
  lemma ChosenExact(c: Composite, topics: map<Peer, set<Topic>>, backedOff: Peer -> bool, n: nat)
    requires Chosen(c, topics, backedOff, n)
    ensures forall p :: p in c.same + c.broker ==>
      && p in topics && !backedOff(p)
      && (p in c.same ==> forall s :: s in c.slices ==> exists b :: b in topics[p] && Covers(b, s))
      && (p in c.broker ==> exists s, b :: s in c.slices && b in topics[p] && Covers(b, s))
  {
    hide Covers, CoversEvery, CoversSome;
    forall p | p in c.same + c.broker
      ensures p in topics && !backedOff(p)
      ensures p in c.same ==> forall s :: s in c.slices ==> exists b :: b in topics[p] && Covers(b, s)
      ensures p in c.broker ==> exists s, b :: s in c.slices && b in topics[p] && Covers(b, s)
    {
      CoversExactly(topics[p], c.slices);
    }
  }

  /** The first loop of join_composite. */
  method PickSame(slices: seq<Topic>, topics: map<Peer, set<Topic>>, backedOff: Peer -> bool, n: nat) returns (same: set<Peer>)
    ensures |same| <= n && forall p :: p in same ==> Willing(topics, backedOff, slices, true, p)
    ensures |same| < n ==> forall p :: Willing(topics, backedOff, slices, true, p) ==> p in same
  {
    hide CoversEvery, CoversSome;
    same := {};
    var left := topics.Keys;
    while left != {} && |same| < n
      invariant left <= topics.Keys && same !! left && |same| <= n
      invariant forall p :: p in same ==> Willing(topics, backedOff, slices, true, p)
      invariant forall p :: Willing(topics, backedOff, slices, true, p) ==> p in same || p in left
      decreases |left|
    {
      var p := Pick(left);
      left := left - {p};
      if !backedOff(p) && CoversEvery(topics[p], slices) {
        same := same + {p};
      }
    }
  }

  /** The second loop of join_composite. */
  method PickBrokers(slices: seq<Topic>, topics: map<Peer, set<Topic>>, backedOff: Peer -> bool, n: nat,
                     same: set<Peer>) returns (broker: set<Peer>)
    requires |same| <= n
    ensures same !! broker && |same| + |broker| <= n && forall p :: p in broker ==> Willing(topics, backedOff, slices, false, p)
    ensures |same| + |broker| < n ==> forall p :: Willing(topics, backedOff, slices, false, p) ==> p in same + broker
  {
    hide CoversEvery, CoversSome;
    broker := {};
    var left := topics.Keys - same;
    while left != {} && |same| + |broker| < n
      invariant left <= topics.Keys && same !! left && broker !! left && same !! broker && |same| + |broker| <= n
      invariant forall p :: p in broker ==> Willing(topics, backedOff, slices, false, p)
      invariant forall p :: Willing(topics, backedOff, slices, false, p) ==> p in same || p in broker || p in left
      decreases |left|
    {
      var p := Pick(left);
      left := left - {p};
      if !backedOff(p) && CoversSome(topics[p], slices) {
        broker := broker + {p};
      }
    }
  }

  // ----- the heartbeat on one composite -----

  /** Step 1: disconnected or negative-score members go. */
  function Evicted(c: Composite, connected: set<Peer>, score: Score): (r: Composite)
  {
    c.(same := (set p | p in c.same && p in connected && score(p) >= 0.0),
       broker := (set p | p in c.broker && p in connected && score(p) >= 0.0))
  }

  /** Step 2 adds eligible peers up to n, all of them if it stays below, and stays within the subnet cap. */
  ghost predicate Grown(cfg: Config, pool: Pool, e: Composite, r: Composite) {
    && r.slices == e.slices && e.same <= r.same && e.broker <= r.broker && r.same !! r.broker
    && |r.Members()| <= Max(cfg.n, |e.Members()|) && (|e.Members()| >= cfg.n ==> r == e)
    && (forall p :: p in r.Members() - e.Members() ==> Eligible(pool, e.Members(), e.slices, p))
    && Classified(pool, e.slices, r.same - e.same, r.broker - e.broker)
    && WithinCap(cfg.subnetCap, e.Members(), r.Members(), pool.buckets)
    && (|r.Members()| < cfg.n ==> Exhausted(pool, cfg.subnetCap, e.slices, e.Members(), r.Members() - e.Members()))
  }

  /** Step 3 leaves exactly n, brokers going before full coverers and worse scores before better. */
  ghost predicate Trimmed(cfg: Config, pool: Pool, e: Composite, r: Composite) {
    && r.slices == e.slices && |r.Members()| == cfg.n && (r.same != e.same ==> r.broker == {})
    && WorstDropped(e.same, r.same, pool.score) && WorstDropped(e.broker, r.broker, pool.score)
  }

  /** What steps 1 to 3 promise about one composite: grown if there is room, trimmed if it is over high. */
  ghost predicate Maintained(cfg: Config, pool: Pool, connected: set<Peer>, c: Composite, r: Composite) {
    var e := Evicted(c, connected, pool.score);
    && r.slices == c.slices && r.same !! r.broker && |r.Members()| <= cfg.high
    && (forall p :: p in r.Members() ==> pool.score(p) >= 0.0)
    && (pool.topics.Keys <= connected ==> r.Members() <= connected)
    && if |e.Members()| > cfg.high then Trimmed(cfg, pool, e, r) else Grown(cfg, pool, e, r)
  }

  method FillStep(cfg: Config, pool: Pool, e: Composite) returns (r: Composite)
    requires e.same !! e.broker
    ensures Grown(cfg, pool, e, r)
  {
    hide Grown, WithinCap, Eligible, Exhausted, Classified;
    UnionSize(e.same, e.broker);
    var total := |e.same| + |e.broker|;
    r := e;
    if total < cfg.n {
      var same, broker := FillComposite(pool, cfg.subnetCap, e.slices, e.Members(), cfg.n - total);
      GrownBy(cfg, pool, e, same, broker);
      r := e.(same := e.same + same, broker := e.broker + broker);
    } else {
      GrownNothing(cfg, pool, e);
    }
  }

  lemma GrownNothing(cfg: Config, pool: Pool, e: Composite)
    requires e.same !! e.broker
    ensures |e.Members()| >= cfg.n ==> Grown(cfg, pool, e, e)
  {
    hide WithinCap, Eligible, Classified, Exhausted;
    SameWithinCap(cfg.subnetCap, e.Members(), pool.buckets);
    assert e.same - e.same == {} && e.broker - e.broker == {};
    NoneClassified(pool, e.slices);
  }

  lemma GrownBy(cfg: Config, pool: Pool, e: Composite, same: set<Peer>, broker: set<Peer>)
    requires e.same !! e.broker && same !! broker && e.Members() !! (same + broker) && |same| + |broker| <= cfg.n - |e.Members()|
    requires forall p :: p in same + broker ==> Eligible(pool, e.Members(), e.slices, p)
    requires Classified(pool, e.slices, same, broker) && cfg.n > |e.Members()|
    requires WithinCap(cfg.subnetCap, e.Members(), e.Members() + (same + broker), pool.buckets)
    requires |same| + |broker| < cfg.n - |e.Members()| ==> Exhausted(pool, cfg.subnetCap, e.slices, e.Members(), same + broker)
    ensures Grown(cfg, pool, e, e.(same := e.same + same, broker := e.broker + broker))
  {
    hide WithinCap, Eligible, Classified, Exhausted;
    var r := e.(same := e.same + same, broker := e.broker + broker);
    GrownSets(e.same, e.broker, same, broker);
    UnionSize(same, broker);
    UnionSize(e.Members(), same + broker);
  }

  lemma GrownSets(s: set<Peer>, b: set<Peer>, same: set<Peer>, broker: set<Peer>)
    requires s !! b && same !! broker && (s + b) !! (same + broker)
    ensures (s + same) + (b + broker) == (s + b) + (same + broker) && (s + same) !! (b + broker)
    ensures ((s + b) + (same + broker)) - (s + b) == same + broker
    ensures (s + same) - s == same && (b + broker) - b == broker
  {
  }

  lemma NoneClassified(pool: Pool, slices: seq<Topic>)
    ensures Classified(pool, slices, {}, {})
  {
  }

  lemma EvictedGood(c: Composite, connected: set<Peer>, score: Score)
    requires c.same !! c.broker
    ensures var e := Evicted(c, connected, score);
      e.slices == c.slices && e.same !! e.broker && forall p :: p in e.Members() ==> p in connected && score(p) >= 0.0
  {
  }

  lemma GrownGood(cfg: Config, pool: Pool, connected: set<Peer>, e: Composite, r: Composite)
    requires Grown(cfg, pool, e, r)
    requires forall p :: p in e.Members() ==> p in connected && pool.score(p) >= 0.0
    ensures forall p :: p in r.Members() ==> pool.score(p) >= 0.0
    ensures pool.topics.Keys <= connected ==> r.Members() <= connected
  {
    hide CoversEvery, CoversSome, WithinCap, Classified, Exhausted;
    forall p | p in r.Members() ensures (p in connected || p in pool.topics) && pool.score(p) >= 0.0 {
      if p !in e.Members() {
        assert Eligible(pool, e.Members(), e.slices, p);
      }
    }
  }

  /** Steps 1 to 3 of the composite pass: evict, fill to n, trim to n when over high. */
  method MaintainComposite(cfg: Config, pool: Pool, connected: set<Peer>, c: Composite) returns (r: Composite)
    requires Accepted(cfg) && c.same !! c.broker
    ensures Maintained(cfg, pool, connected, c, r)
  {
    hide WithinCap, WorstDropped, Eligible, Evicted, Classified, Exhausted;
    var e := Evicted(c, connected, pool.score);
    EvictedGood(c, connected, pool.score);
    r := FillStep(cfg, pool, e);
    GrownGood(cfg, pool, connected, e, r);
    UnionSize(r.same, r.broker);
    if |r.same| + |r.broker| > cfg.high {
      var same, broker := TrimComposite(r.same, r.broker, cfg.n, pool.score);
      DroppedSubset(r.same, same, pool.score);
      DroppedSubset(r.broker, broker, pool.score);
      r := r.(same := same, broker := broker);
      UnionSize(same, broker);
    }
  }

  /** Connected members of non-negative score stay unless there are too many, and whoever comes in was eligible. */
  lemma MaintainedExact(cfg: Config, pool: Pool, connected: set<Peer>, c: Composite, r: Composite)
    requires Maintained(cfg, pool, connected, c, r) && c.same !! c.broker
    ensures var kept := set p | p in c.same + c.broker && p in connected && pool.score(p) >= 0.0;
      && (|kept| <= cfg.high ==> kept <= r.same + r.broker) && (|kept| > cfg.high ==> r.same + r.broker <= kept)
      && forall p :: p in r.same + r.broker && p !in kept ==>
           && p in pool.topics && p !in pool.explicitPeers && !pool.backedOff(p) && pool.score(p) >= 0.0
           && (p in r.same <==> forall s :: s in c.slices ==> exists b :: b in pool.topics[p] && Covers(b, s))
           && (p in r.broker ==> exists s, b :: s in c.slices && b in pool.topics[p] && Covers(b, s))
  {
    hide WithinCap, Covers, CoversEvery, CoversSome, Exhausted;
    var kept := set p | p in c.same + c.broker && p in connected && pool.score(p) >= 0.0;
    var e := Evicted(c, connected, pool.score);
    assert e.Members() == kept;
    forall p | p in r.same + r.broker && p !in kept
      ensures p in pool.topics && p !in pool.explicitPeers && !pool.backedOff(p) && pool.score(p) >= 0.0
      ensures p in r.same <==> forall s :: s in c.slices ==> exists b :: b in pool.topics[p] && Covers(b, s)
      ensures p in r.broker ==> exists s, b :: s in c.slices && b in pool.topics[p] && Covers(b, s)
    {
      assert Eligible(pool, e.Members(), e.slices, p);
      CoversExactly(pool.topics[p], c.slices);
    }
  }

  lemma DroppedSubset(all: set<Peer>, kept: set<Peer>, score: Score)
    requires WorstDropped(all, kept, score)
    ensures kept <= all
  {
  }

  // ----- members of a slice through the index -----

  ghost function MembersOf(cs: Composites, keys: seq<Topic>): (r: set<Peer>)
  {
    if keys == [] then {}
    else MembersOf(cs, keys[..|keys| - 1]) + if keys[|keys| - 1] in cs then cs[keys[|keys| - 1]].Members() else {}
  }

  lemma {:induction false} MembersOfMember(cs: Composites, keys: seq<Topic>, p: Peer)
    ensures p in MembersOf(cs, keys) <==> exists k :: k in keys && k in cs && p in cs[k].Members()
  {
    if keys != [] {
      var front, last := keys[..|keys| - 1], keys[|keys| - 1];
      assert keys == front + [last];
      MembersOfMember(cs, front, p);
    }
  }

  lemma MembersOfOwners(cs: Composites, index: Index, s: Topic)
    requires IndexOk(cs, index)
    ensures MembersOf(cs, OwnersOf(index, s)) == Owners(cs, s)
  {
    hide Owners, MembersOf;
    forall p ensures p in MembersOf(cs, OwnersOf(index, s)) <==> p in Owners(cs, s) {
      OwnersMember(cs, s, p);
      MembersOfMember(cs, OwnersOf(index, s), p);
      forall k ensures k in OwnersOf(index, s) <==> Owns(cs, k, s) {
      }
    }
  }

  // ----- grafting -----

  /** Everything handle_graft consults about the grafting peer and its topics. */
  datatype GraftContext = GraftContext(outbound: bool, backoffActive: Topic -> bool, belowZero: bool, buckets: Buckets)

  /** Why a GRAFT for a topic with mesh members m is refused. */
  predicate Refuses(cfg: Config, ctx: GraftContext, outbound: bool, t: Topic, m: set<Peer>, p: Peer) {
    || ctx.backoffActive(t) || ctx.belowZero || (|m| >= cfg.high && !outbound)
    || (!outbound && ViolatesCap(cfg.subnetCap, m, ctx.buckets, p))
  }

  predicate RefusesComposite(cfg: Config, ctx: GraftContext, outbound: bool, t: Topic, m: set<Peer>, p: Peer) {
    ctx.backoffActive(t) || ctx.belowZero || (!outbound && ViolatesCap(cfg.subnetCap, m, ctx.buckets, p))
  }

  /** The slices of a set of composites. */
  ghost function SlicesOf(cs: Composites, keys: set<Topic>): (r: set<Topic>)
  {
    set k, s | k in keys && k in cs && s in cs[k].slices :: s
  }

  lemma SlicesOfMember(cs: Composites, keys: set<Topic>, s: Topic)
    ensures s in SlicesOf(cs, keys) <==> exists k :: k in keys && Owns(cs, k, s)
  {
    if exists k :: k in keys && Owns(cs, k, s) {
      var k :| k in keys && Owns(cs, k, s);
      assert k in keys && k in cs && s in cs[k].slices;
    }
    if s in SlicesOf(cs, keys) {
      var k :| k in keys && k in cs && s in cs[k].slices;
      assert k in keys && Owns(cs, k, s);
    }
  }

  /** The first loop of handle_graft: what is disturbed was accepted and holds the peer, what was refused stays refused. */
  ghost predicate Grafting(cfg: Config, ctx: GraftContext, outbound: bool, p: Peer, cs: Composites, mesh: Mesh,
                           seen: set<Topic>, pruned: set<Topic>, bad: set<Topic>) {
    && bad <= seen && bad !! pruned && bad !! cs.Keys
    && (forall s :: s in bad ==> s in mesh && p in mesh[s])
    && forall s :: s in pruned && s !in cs ==> s in mesh && (p in mesh[s] || Refuses(cfg, ctx, outbound, s, mesh[s], p))
  }

  /** Everything that changes composites or meshes, with all that the router consults. */
  datatype Operation =
    | Subscribing(topic: Topic, avoided: Peer -> bool, chosen: set<Peer>)
    | Unsubscribing(topic: Topic)
    | Graft(peer: Peer, topics: seq<Topic>, ctx: GraftContext)
    | Prune(peer: Peer, topic: Topic)
    | Announce(peer: Peer, list: seq<Subscription>, welcome: Topic -> bool, avoiding: Topic -> bool)
    | Connect(peer: Peer)
    | Disconnect(peer: Peer)
    | Heartbeat(simple: (Topic, set<Peer>) -> set<Peer>, connected: set<Peer>, score: Score, backedOff: (Topic, Peer) -> bool,
                buckets: Buckets)

  /** The operations that may put an owned slice out of order, and which. */
  predicate MayDisturb(op: Operation, s: Topic)
  {
    match op
    case Unsubscribing(t) => s == t
    case Announce(_, list, _, _) => Subscribe(s) in list || Unsubscribe(s) in list
    case Disconnect(_) => true
    case _ => false
  }

  /** What was disturbed at the start or by an operation since, from the last heartbeat on. */
  ghost function SinceHeartbeat(start: set<Topic>, ops: seq<Operation>, added: seq<set<Topic>>): (r: set<Topic>)
    requires |ops| == |added|
  {
    if ops == [] then start
    else if ops[|ops| - 1].Heartbeat? then {}
    else SinceHeartbeat(start, ops[..|ops| - 1], added[..|added| - 1]) + added[|added| - 1]
  }

  function WelcomeTo(explicitPeers: set<Peer>, welcome: Topic -> bool, p: Peer): (f: Topic -> bool)
  {
    t => p !in explicitPeers && welcome(t)
  }

  class Router {
    var composites: Composites
    var index: Index
    var mesh: Mesh
    var peerTopics: map<Peer, set<Topic>>
    var subscriptions: set<Topic>
    const explicitPeers: set<Peer>
    const config: Config

    /** The reverse index lists exactly the owners, and same and broker are disjoint. */
    ghost predicate Structure()
      reads this
    {
      WellFormed(composites) && IndexOk(composites, index) && Accepted(config)
    }

    /** The owned slices whose mesh is not derived from their owners. */
    ghost function Disturbed(): (r: set<Topic>)
      reads this
    {
      Disturbance(composites, index, mesh, subscriptions)
    }

    constructor (explicitPeers: set<Peer>, config: Config)
      requires Accepted(config)
      ensures Structure() && Disturbed() == {}
      ensures composites == map[] && index == map[] && mesh == map[] && subscriptions == {} && peerTopics == map[]
    {
      composites, index, mesh, peerTopics, subscriptions := map[], map[], map[], map[], {};
      this.explicitPeers, this.config := explicitPeers, config;
    }

    /** composite_members_for_slice. */
    method MembersForSlice(s: Topic) returns (r: set<Peer>)
      requires Structure()
      ensures r == Owners(composites, s)
    {
      hide WellFormed, IndexOk, Owners, MembersOf;
      MembersOfOwners(composites, index, s);
      var keys := OwnersOf(index, s);
      r := {};
      MembersOfStep(composites, keys, 0);
      for i := 0 to |keys|
        invariant r == MembersOf(composites, keys[..i])
      {
        MembersOfStep(composites, keys, i + 1);
        if keys[i] in composites {
          r := r + composites[keys[i]].same + composites[keys[i]].broker;
        }
      }
      assert keys[..|keys|] == keys;
    }

    /** rebuild_slice_meshes. */
    method RebuildSliceMeshes(k: Topic)
      requires Structure()
      modifies this`mesh
      ensures k in composites ==> mesh == Rebuilt(composites, old(mesh), subscriptions, composites[k].slices)
      ensures k !in composites ==> mesh == old(mesh)
    {
      hide WellFormed, IndexOk, Owners, Rebuilt;
      if k !in composites {
        return;
      }
      var slices := composites[k].slices;
      ghost var m := mesh;
      RebuiltNothing(composites, m, subscriptions);
      assert slices[..0] == [];
      for j := 0 to |slices|
        invariant mesh == Rebuilt(composites, m, subscriptions, slices[..j])
      {
        RebuiltMore(composites, m, subscriptions, slices, j);
        var s := slices[j];
        var members := MembersForSlice(s);
        var entry := if s in mesh && s in subscriptions then mesh[s] else {};
        mesh := mesh[s := entry + members];
      }
      assert slices[..|slices|] == slices;
    }

    /** The steps of join_composite. */
    method CreateComposite(k: Topic, backedOff: Peer -> bool)
      requires Structure()
      modifies this`composites, this`index, this`mesh
      ensures Structure() && Disturbed() <= old(Disturbed())
      ensures k !in old(composites) ==> Disturbed() <= old(Disturbed()) - SetOf(Slices(k))
      ensures k in old(composites) ==> composites == old(composites) && index == old(index) && mesh == old(mesh)
      ensures k !in old(composites) ==> composites.Keys == old(composites).Keys + {k} && composites == old(composites)[k := composites[k]]
      ensures k !in old(composites) ==> composites[k].slices == Slices(k) && Chosen(composites[k], peerTopics, backedOff, config.n)
      ensures k !in old(composites) ==> index == Registered(old(index), Slices(k), k)
      ensures k !in old(composites) ==> mesh == Rebuilt(composites, old(mesh), subscriptions, Slices(k))
    {
      hide WellFormed, IndexOk, OkExcept, Rebuilt, Registered, Slices, CoversEvery, CoversSome, Covers, Willing, Disturbance;
      if k in composites {
        return;
      }
      ghost var dirty := Disturbed();
      DisturbedWithin(composites, index, mesh, subscriptions, dirty);
      var slices := SliceBitmask(k);
      var same := PickSame(slices, peerTopics, backedOff, config.n);
      var broker := {};
      if |same| < config.n {
        broker := PickBrokers(slices, peerTopics, backedOff, config.n, same);
      }
      var c := Composite(slices, same, broker);
      SlicesDistinct(k);
      JoinKeepsStructure(composites, index, k, c);
      JoinDisturbs(composites, index, mesh, subscriptions, dirty, k, c);
      ghost var index0 := index;
      assert slices[..0] == [];
      NoneRegistered(index0, k);
      for j := 0 to |slices|
        invariant index == Registered(index0, slices[..j], k)
        invariant composites == old(composites) && mesh == old(mesh)
      {
        RegisterOne(index0, slices, j, k);
        index := index[slices[j] := OwnersOf(index, slices[j]) + [k]];
      }
      assert slices[..|slices|] == slices;
      composites := composites[k := c];
      RebuildRepairs(composites, index, mesh, subscriptions, dirty + SetOf(slices), slices);
      assert dirty + SetOf(slices) - SetOf(slices) == dirty - SetOf(slices);
      RebuildSliceMeshes(k);
      DisturbedWithin(composites, index, mesh, subscriptions, dirty - SetOf(slices));
    }

    /** join_composite. */
    method JoinComposite(k: Topic, backedOff: Peer -> bool)
      requires Structure()
      modifies this`composites, this`index, this`mesh
      ensures Structure() && Disturbed() <= old(Disturbed())
      ensures k !in old(composites) ==> Disturbed() <= old(Disturbed()) - SetOf(Slices(k))
      ensures k in old(composites) ==> composites == old(composites) && index == old(index) && mesh == old(mesh)
      ensures k !in old(composites) ==> composites.Keys == old(composites).Keys + {k} && composites == old(composites)[k := composites[k]]
      ensures k !in old(composites) ==> composites[k].slices == Slices(k) && Chosen(composites[k], peerTopics, backedOff, config.n)
      ensures k !in old(composites) ==> forall p :: p in composites[k].same + composites[k].broker ==>
        && p in peerTopics && !backedOff(p)
        && (p in composites[k].same ==> forall s :: s in Slices(k) ==> exists b :: b in peerTopics[p] && Covers(b, s))
        && (p in composites[k].broker ==> exists s, b :: s in Slices(k) && b in peerTopics[p] && Covers(b, s))
      ensures k !in old(composites) ==> index == Registered(old(index), Slices(k), k)
      ensures k !in old(composites) ==> mesh == Rebuilt(composites, old(mesh), subscriptions, Slices(k))
    {
      hide WellFormed, IndexOk, Rebuilt, Registered, Slices, Covers, Chosen, Disturbance;
      CreateComposite(k, backedOff);
      if k !in old(composites) {
        ChosenExact(composites[k], peerTopics, backedOff, config.n);
      }
    }

    /** leave_composite. */
    method LeaveComposite(k: Topic)
      requires Structure()
      modifies this`composites, this`index, this`mesh
      ensures Structure() && Disturbed() <= old(Disturbed()) && composites == old(composites) - {k}
      ensures k in old(composites) ==> index == Unregistered(old(index), old(composites)[k].slices, k)
      ensures k in old(composites) ==> LeaveFrame(old(mesh), mesh, index, subscriptions, SetOf(old(composites)[k].slices))
      ensures k !in old(composites) ==> index == old(index) && mesh == old(mesh)
    {
      hide WellFormed, IndexOk, OkExcept, Rebuilt, Unregistered, Without, Frame, LeaveFrame, Disturbance;
      if k !in composites {
        assert composites - {k} == composites;
        return;
      }
      var slices := composites[k].slices;
      LeaveKeepsStructure(composites, index, k);
      ghost var dirty := Disturbed();
      DisturbedWithin(composites, index, mesh, subscriptions, dirty);
      LeaveDisturbs(composites, index, mesh, subscriptions, dirty, k);
      composites := composites - {k};
      ghost var index0 := index;
      NoneUnregistered(index0, k);
      assert slices[..0] == [];
      for j := 0 to |slices|
        invariant index == Unregistered(index0, slices[..j], k)
        invariant composites == old(composites) - {k} && mesh == old(mesh)
      {
        UnregisterOne(index0, slices, j, k);
        var s := slices[j];
        if s in index {
          var keys := Retain(index[s], k);
          index := if keys == [] then index - {s} else index[s := keys];
        }
      }
      assert slices[..|slices|] == slices && slices[0..] == slices;
      LeaveNothing(mesh, index, subscriptions);
      assert SetOf(slices[..0]) == {};
      for j := 0 to |slices|
        invariant LeaveFrame(old(mesh), mesh, index, subscriptions, SetOf(slices[..j]))
        invariant Structure() && OkExcept(composites, index, mesh, subscriptions, dirty + SetOf(slices[j..]))
        invariant composites == old(composites) - {k} && index == Unregistered(index0, slices, k)
      {
        var s := slices[j];
        assert slices[j..][1..] == slices[j + 1..] && slices[j..][0] == s;
        assert SetOf(slices[..j + 1]) == SetOf(slices[..j]) + {s};
        if s !in index {
          LeaveRemoves(old(mesh), mesh, index, subscriptions, SetOf(slices[..j]), s);
          RemoveUnowned(composites, index, mesh, subscriptions, dirty + SetOf(slices[j..]), s);
          Forgives(composites, index, mesh - {s}, subscriptions, dirty + SetOf(slices[j..]), dirty + SetOf(slices[j + 1..]));
          mesh := mesh - {s};
        } else {
          FirstOwner(composites, index, s);
          var first := index[s][0];
          RebuildRepairs(composites, index, mesh, subscriptions, dirty + SetOf(slices[j..]), composites[first].slices);
          Forgives(composites, index, Rebuilt(composites, mesh, subscriptions, composites[first].slices), subscriptions,
                   dirty + SetOf(slices[j..]) - SetOf(composites[first].slices), dirty + SetOf(slices[j + 1..]));
          RebuiltFrame(composites, index, mesh, subscriptions, first);
          LeaveRebuilds(old(mesh), mesh, Rebuilt(composites, mesh, subscriptions, composites[first].slices), index, subscriptions,
                        SetOf(slices[..j]), s);
          RebuildSliceMeshes(first);
        }
      }
      assert dirty + SetOf(slices[|slices|..]) == dirty;
      DisturbedWithin(composites, index, mesh, subscriptions, dirty);
    }

    /** keys.retain. */
    method Retain(keys: seq<Topic>, k: Topic) returns (r: seq<Topic>)
      ensures r == Without(keys, k)
    {
      r := [];
      for i := 0 to |keys|
        invariant r == Without(keys[..i], k)
      {
        assert keys[..i + 1][..i] == keys[..i];
        if keys[i] != k {
          r := r + [keys[i]];
        }
      }
      assert keys[..|keys|] == keys;
    }

    /** Stores a changed composite and rebuilds its slices. */
    method Replace(k: Topic, c: Composite)
      requires Structure() && k in composites && c.slices == composites[k].slices && c.same !! c.broker
      modifies this`composites, this`mesh
      ensures Structure() && composites == old(composites)[k := c]
      ensures mesh == Rebuilt(composites, old(mesh), subscriptions, c.slices) && Frame(old(mesh), mesh, index, subscriptions)
      ensures Disturbed() == old(Disturbed()) - SetOf(c.slices)
    {
      hide WellFormed, IndexOk, Rebuilt, Frame, Disturbance;
      ChangeKeepsStructure(composites, index, k, c);
      ghost var cs, m := composites, mesh;
      composites := composites[k := c];
      RebuildSliceMeshes(k);
      RebuiltFrame(composites, index, m, subscriptions, k);
      ReplacedDisturbance(cs, index, m, subscriptions, k, c);
    }

    /** The heartbeat's composite pass: maintains every composite and restores the slice meshes from any contents. */
    method HeartbeatComposites(connected: set<Peer>, score: Score, backedOff: (Topic, Peer) -> bool, buckets: Buckets)
      requires Structure()
      modifies this`composites, this`mesh
      ensures Structure() && Disturbed() == {} && composites.Keys == old(composites).Keys
      ensures forall k :: k in composites ==>
        Maintained(config, PoolFor(k, score, backedOff, buckets), connected, old(composites)[k], composites[k])
      ensures Frame(old(mesh), mesh, index, subscriptions)
    {
      hide WellFormed, IndexOk, Rebuilt, Maintained, Owners, Frame, Disturbance;
      FrameSame(mesh, index, subscriptions);
      DisturbedOwned(composites, index, mesh, subscriptions);
      var left := composites.Keys;
      while left != {}
        invariant Structure() && left <= composites.Keys == old(composites).Keys
        invariant Disturbed() <= index.Keys
        invariant Frame(old(mesh), mesh, index, subscriptions)
        invariant forall s :: s in Disturbed() ==> forall k :: Owns(composites, k, s) ==> k in left
        invariant forall k :: k in left ==> composites[k] == old(composites)[k]
        invariant forall k :: k in composites && k !in left ==>
          Maintained(config, PoolFor(k, score, backedOff, buckets), connected, old(composites)[k], composites[k])
        decreases |left|
      {
        var k := Pick(left);
        WellFormedDisjoint(composites, k);
        var c := MaintainComposite(config, PoolFor(k, score, backedOff, buckets), connected, composites[k]);
        MaintainedShape(config, PoolFor(k, score, backedOff, buckets), connected, composites[k], c);
        ghost var cs, m := composites, mesh;
        Replace(k, c);
        FrameTrans(old(mesh), m, mesh, index, subscriptions);
        left := left - {k};
        forall s | s in Disturbed() ensures forall j :: Owns(composites, j, s) ==> j in left {
          assert forall j :: Owns(composites, j, s) ==> Owns(cs, j, s);
        }
      }
      forall s | s in Disturbed() ensures false {
        SomeOwner(composites, index, s);
      }
      assert Disturbed() == {};
    }

    /** The loop over the composites. */
    method ReclassifyEach(p: Peer, backedOff: Topic -> bool)
      requires Structure()
      modifies this`composites, this`mesh
      ensures Structure() && SameSlices(old(composites), composites)
      ensures Disturbed() == old(Disturbed()) - SlicesOf(composites, Changed(old(composites), composites))
      ensures p !in peerTopics ==> composites == old(composites) && mesh == old(mesh)
      ensures p in peerTopics ==> forall k :: k in composites ==>
        composites[k] == Reclassified(old(composites)[k], peerTopics[p], config.n, backedOff(k), p)
      ensures Frame(old(mesh), mesh, index, subscriptions)
    {
      hide WellFormed, IndexOk, Rebuilt, Owners, CoversEvery, CoversSome, Covers, Reclassified, Frame, Disturbance, SlicesOf, Changed;
      FrameSame(mesh, index, subscriptions);
      NothingChanged(composites);
      if p !in peerTopics {
        return;
      }
      var left := composites.Keys;
      while left != {}
        invariant Structure() && SameSlices(old(composites), composites) && left <= composites.Keys
        invariant Frame(old(mesh), mesh, index, subscriptions)
        invariant Disturbed() == old(Disturbed()) - SlicesOf(composites, Changed(old(composites), composites))
        invariant forall k :: k in left ==> composites[k] == old(composites)[k]
        invariant forall k :: k in composites && k !in left ==>
          composites[k] == Reclassified(old(composites)[k], peerTopics[p], config.n, backedOff(k), p)
        decreases |left|
      {
        var k := Pick(left);
        WellFormedDisjoint(composites, k);
        var c := Reclassified(composites[k], peerTopics[p], config.n, backedOff(k), p);
        ReclassifiedShape(composites[k], peerTopics[p], config.n, backedOff(k), p);
        if c != composites[k] {
          ghost var m, cs := mesh, composites;
          Replace(k, c);
          FrameTrans(old(mesh), m, mesh, index, subscriptions);
          OneMoreChanged(old(composites), cs, k, c);
        }
        left := left - {k};
      }
    }

    /** reclassify_composites_for_peer: the peer joins under-full composites it now covers. */
    method ReclassifyForPeer(p: Peer, backedOff: Topic -> bool)
      requires Structure()
      modifies this`composites, this`mesh
      ensures Structure() && SameSlices(old(composites), composites)
      ensures Disturbed() == old(Disturbed()) - SlicesOf(composites, Changed(old(composites), composites))
      ensures p !in peerTopics ==> composites == old(composites) && mesh == old(mesh)
      ensures p in peerTopics ==> forall k :: k in composites ==>
        composites[k] == Reclassified(old(composites)[k], peerTopics[p], config.n, backedOff(k), p)
      ensures p in peerTopics ==> forall k :: k in composites && p !in old(composites)[k].Members() ==>
        var c, full := old(composites)[k], forall s :: s in composites[k].slices ==> exists b :: b in peerTopics[p] && Covers(b, s);
        && (p in composites[k].Members() <==>
              && |c.same| + |c.broker| < config.n && !backedOff(k)
              && (full || exists s, b :: s in c.slices && b in peerTopics[p] && Covers(b, s)))
        && (p in composites[k].Members() ==> (p in composites[k].same <==> full) && (p in composites[k].broker <==> !full))
      ensures Frame(old(mesh), mesh, index, subscriptions)
    {
      hide WellFormed, IndexOk, Covers, Reclassified, Frame, Disturbance, SlicesOf, Changed;
      ReclassifyEach(p, backedOff);
      if p in peerTopics {
        ReclassifiedAll(old(composites), composites, peerTopics[p], config.n, backedOff, p);
      }
    }

    /** classify and admit a peer into composite k, without rebuilding. */
    method Admit(k: Topic, p: Peer, ghost bad: set<Topic>)
      requires Structure() && k in composites && p in peerTopics && OkExcept(composites, index, mesh, subscriptions, bad)
      modifies this`composites
      ensures Structure() && composites == old(composites)[k := Admitted(old(composites)[k], peerTopics[p], p)]
      ensures OkExcept(composites, index, mesh, subscriptions, bad + SetOf(old(composites)[k].slices))
    {
      hide WellFormed, IndexOk, OkExcept, CoversEvery;
      var c := composites[k];
      WellFormedDisjoint(composites, k);
      ghost var a := Admitted(c, peerTopics[p], p);
      ChangeKeepsStructure(composites, index, k, a);
      ChangeDisturbs(composites, index, mesh, subscriptions, bad, k, a);
      if CoversEvery(peerTopics[p], c.slices) {
        c := c.(broker := c.broker - {p});
        c := c.(same := c.same + {p});
      } else if p !in c.same {
        c := c.(broker := c.broker + {p});
      }
      composites := composites[k := c];
    }

    /** One topic of a GRAFT: whole-bitmask admission, or the simple mesh path. */
    method GraftOne(p: Peer, t: Topic, ctx: GraftContext, pruned0: set<Topic>, ghost seen: set<Topic>, ghost bad0: set<Topic>,
                    ghost dirty: set<Topic>)
      returns (pruned: set<Topic>, ghost bad: set<Topic>)
      requires Structure() && p in peerTopics && OkExcept(composites, index, mesh, subscriptions, dirty + bad0)
      requires Grafting(config, ctx, ctx.outbound, p, composites, mesh, seen, pruned0, bad0)
      modifies this`composites, this`mesh
      ensures Structure() && OkExcept(composites, index, mesh, subscriptions, dirty + bad)
      ensures Grafting(config, ctx, ctx.outbound, p, composites, mesh, seen + {t}, pruned, bad)
      ensures composites == GraftedWhole(config, ctx, ctx.outbound, old(composites), peerTopics[p], t, p)
      ensures GraftStep(config, ctx, ctx.outbound, old(mesh), mesh, index, composites.Keys, t, p, pruned0, pruned)
      ensures pruned0 <= pruned <= pruned0 + {t}
      ensures Refused(config, ctx, ctx.outbound, old(composites), p, t) ==> t in pruned
      ensures t in old(composites) && t !in pruned ==> composites == old(composites)[t := Admitted(old(composites)[t], peerTopics[p], p)]
      ensures t !in old(composites) && t in old(mesh) && t !in pruned ==> t in mesh && p in mesh[t]
      ensures forall s :: s in old(mesh) && p in old(mesh)[s] && s !in old(composites) ==> s in mesh && p in mesh[s]
      ensures t in pruned - pruned0 ==> Refusable(ctx, ctx.outbound, t)
      ensures old(mesh).Keys <= mesh.Keys
      ensures GraftFrame(old(mesh), mesh, index, subscriptions, p)
    {
      hide WellFormed, IndexOk, OkExcept, Rebuilt, Grafting, Refuses, RefusesComposite, Admitted, GraftFrame;
      pruned, bad := pruned0, bad0;
      var outbound := ctx.outbound;
      GraftFrameSame(mesh, index, subscriptions, p);
      GraftingSees(config, ctx, outbound, p, composites, mesh, seen, pruned, bad, t);
      if t in composites {
        RefusedIsRefusable(config, ctx, outbound, t, composites[t].Members(), p);
        if RefusesComposite(config, ctx, outbound, t, composites[t].Members(), p) {
          pruned := pruned + {t};
        } else {
          bad := AdmitWhole(p, t, ctx, pruned, seen, bad, dirty);
        }
      } else if t in mesh && p !in mesh[t] {
        RefusedIsRefusable(config, ctx, outbound, t, mesh[t], p);
        if Refuses(config, ctx, outbound, t, mesh[t], p) {
          pruned := pruned + {t};
        } else {
          InsertDisturbs(composites, index, mesh, subscriptions, dirty + bad, t, mesh[t] + {p});
          assert dirty + bad + {t} == dirty + (bad + {t});
          InsertFrame(mesh, index, subscriptions, t, p);
          mesh := mesh[t := mesh[t] + {p}];
          bad := bad + {t};
        }
      }
    }

    /** Whole-bitmask admission: classify, admit, rebuild. */
    method AdmitWhole(p: Peer, t: Topic, ctx: GraftContext, ghost pruned: set<Topic>, ghost seen: set<Topic>,
                      ghost bad0: set<Topic>, ghost dirty: set<Topic>)
      returns (ghost bad: set<Topic>)
      requires Structure() && p in peerTopics && t in composites && OkExcept(composites, index, mesh, subscriptions, dirty + bad0)
      requires Grafting(config, ctx, ctx.outbound, p, composites, mesh, seen, pruned, bad0)
      modifies this`composites, this`mesh
      ensures Structure() && OkExcept(composites, index, mesh, subscriptions, dirty + bad)
      ensures composites == old(composites)[t := Admitted(old(composites)[t], peerTopics[p], p)]
      ensures Grafting(config, ctx, ctx.outbound, p, composites, mesh, seen + {t}, pruned, bad)
      ensures forall s :: s in old(mesh) && p in old(mesh)[s] ==> s in mesh && p in mesh[s]
      ensures old(mesh).Keys <= mesh.Keys && Frame(old(mesh), mesh, index, subscriptions)
      ensures GraftFrame(old(mesh), mesh, index, subscriptions, p)
    {
      hide WellFormed, IndexOk, OkExcept, Rebuilt, Grafting, CoversEvery, GraftFrame, Frame;
      ghost var cs, m := composites, mesh;
      Admit(t, p, dirty + bad0);
      ghost var slices := composites[t].slices;
      RebuildRepairs(composites, index, mesh, subscriptions, dirty + bad0 + SetOf(slices), slices);
      RebuildSliceMeshes(t);
      bad := bad0 - SetOf(slices);
      Forgives(composites, index, mesh, subscriptions, dirty + bad0 + SetOf(slices) - SetOf(slices), dirty + bad);
      forall s ensures s in slices ==> s in mesh && p in mesh[s]
        ensures s !in slices ==> (s in mesh <==> s in m) && (s in m ==> mesh[s] == m[s])
      {
        RebuiltAt(composites, m, subscriptions, slices, s);
        RebuiltHolds(composites, m, subscriptions, t, s, p);
      }
      GraftingAdmits(config, ctx, ctx.outbound, p, cs, composites, m, mesh, seen, pruned, bad0, t, slices);
      RebuiltFrame(composites, index, m, subscriptions, t);
      FrameIsGraftFrame(m, mesh, index, subscriptions, p);
    }

    /** The first loop of handle_graft. */
    method GraftTopics(p: Peer, topics: seq<Topic>, ctx: GraftContext,
                       ghost dirty: set<Topic>) returns (pruned: set<Topic>, ghost bad: set<Topic>)
      requires Structure() && p in peerTopics && OkExcept(composites, index, mesh, subscriptions, dirty)
      modifies this`composites, this`mesh
      ensures Structure() && OkExcept(composites, index, mesh, subscriptions, dirty + bad)
      ensures bad <= SetOf(topics) - pruned && pruned <= SetOf(topics)
      ensures Touched(old(composites), composites, peerTopics[p], p, SetOf(topics))
      ensures forall k :: k in old(composites) && k in SetOf(topics) - pruned ==>
        composites[k] == Admitted(old(composites)[k], peerTopics[p], p)
      ensures forall t :: t in old(mesh) && t !in old(composites) && t in SetOf(topics) - pruned ==> t in mesh && p in mesh[t]
      ensures forall t :: t in pruned ==> Refusable(ctx, ctx.outbound, t)
      ensures GraftFrame(old(mesh), mesh, index, subscriptions, p)
      ensures SimpleGrafts(config, ctx, ctx.outbound, old(mesh), mesh, index, composites.Keys, SetOf(topics), p, pruned)
      ensures forall k :: k in topics && k in composites ==>
        Refused(config, ctx, ctx.outbound, old(composites), p, k) ==> k in pruned
    {
      hide WellFormed, IndexOk, OkExcept, Grafting, GraftedWhole, Touched, Admitted, GraftFrame, SimpleGrafts, GraftStep, Refused;
      SimpleGraftsStart(config, ctx, ctx.outbound, mesh, index, composites.Keys, p);
      pruned, bad := {}, {};
      GraftingStart(config, ctx, ctx.outbound, p, composites, mesh);
      UntouchedAll(composites, peerTopics[p], p);
      GraftFrameSame(mesh, index, subscriptions, p);
      assert SetOf(topics[..0]) == {} && dirty + bad == dirty;
      for j := 0 to |topics|
        invariant Structure() && OkExcept(composites, index, mesh, subscriptions, dirty + bad)
        invariant Grafting(config, ctx, ctx.outbound, p, composites, mesh, SetOf(topics[..j]), pruned, bad)
        invariant pruned <= SetOf(topics[..j])
        invariant Touched(old(composites), composites, peerTopics[p], p, SetOf(topics[..j]))
        invariant forall k :: k in old(composites) && k in topics[..j] && k !in pruned ==>
          k in composites && composites[k] == Admitted(old(composites)[k], peerTopics[p], p)
        invariant forall t :: t in old(mesh) && t !in old(composites) && t in topics[..j] && t !in pruned ==> t in mesh && p in mesh[t]
        invariant old(mesh).Keys <= mesh.Keys && forall t :: t in pruned ==> Refusable(ctx, ctx.outbound, t)
        invariant GraftFrame(old(mesh), mesh, index, subscriptions, p)
        invariant composites.Keys == old(composites).Keys
        invariant SimpleGrafts(config, ctx, ctx.outbound, old(mesh), mesh, index, composites.Keys, SetOf(topics[..j]), p, pruned)
        invariant forall k :: k in composites && Refused(config, ctx, ctx.outbound, old(composites), p, k) ==>
          composites[k] == old(composites)[k]
        invariant forall k :: k in topics[..j] && k in composites ==>
          Refused(config, ctx, ctx.outbound, old(composites), p, k) ==> k in pruned
      {
        ghost var cs, m, before := composites, mesh, pruned;
        assert SetOf(topics[..j + 1]) == SetOf(topics[..j]) + {topics[j]};
        TouchedSlices(old(composites), cs, peerTopics[p], p, SetOf(topics[..j]));
        pruned, bad := GraftOne(p, topics[j], ctx, pruned, SetOf(topics[..j]), bad, dirty);
        TouchedMore(config, ctx, ctx.outbound, old(composites), cs, peerTopics[p], p, SetOf(topics[..j]), topics[j]);
        GraftFrameTrans(old(mesh), m, mesh, index, subscriptions, p);
        WholeKeys(config, ctx, ctx.outbound, cs, peerTopics[p], topics[j], p);
        SimpleGraftsStep(config, ctx, ctx.outbound, old(mesh), m, mesh, index, composites.Keys, SetOf(topics[..j]), p, before, pruned,
                         topics[j]);
        forall k | k in composites && Refused(config, ctx, ctx.outbound, old(composites), p, k)
          ensures composites[k] == old(composites)[k]
          ensures k == topics[j] ==> k in pruned
        {
          RefusedStays(config, ctx, ctx.outbound, old(composites), cs, peerTopics[p], topics[j], p, k);
        }
        forall k | k in old(composites) && k in topics[..j + 1] && k !in pruned
          ensures k in composites && composites[k] == Admitted(old(composites)[k], peerTopics[p], p)
        {
          AdmittedSoFar(config, ctx, ctx.outbound, old(composites), cs, composites, peerTopics[p], p, SetOf(topics[..j]),
                        topics[j], k);
        }
      }
      assert topics[..|topics|] == topics;
      GraftingEnd(config, ctx, ctx.outbound, p, composites, mesh, SetOf(topics), pruned, bad);
    }

    /** Admits the peer into every owner of a grafted slice. */
    method AdmitOwners(p: Peer, keys: seq<Topic>, ghost bad: set<Topic>)
      requires Structure() && p in peerTopics && OkExcept(composites, index, mesh, subscriptions, bad)
      requires forall k :: k in keys ==> k in composites
      modifies this`composites
      ensures Structure() && SameSlices(old(composites), composites)
      ensures OkExcept(composites, index, mesh, subscriptions, bad + SlicesOf(composites, SetOf(keys)))
      ensures forall k :: k in composites ==>
        composites[k] == if k in keys then Admitted(old(composites)[k], peerTopics[p], p) else old(composites)[k]
    {
      hide WellFormed, IndexOk, OkExcept, Admitted, SlicesOf;
      NoSlices(composites);
      assert SetOf(keys[..0]) == {} && bad + {} == bad;
      for i := 0 to |keys|
        invariant Structure() && SameSlices(old(composites), composites)
        invariant OkExcept(composites, index, mesh, subscriptions, bad + SlicesOf(composites, SetOf(keys[..i])))
        invariant forall k :: k in composites ==>
          composites[k] == if k in keys[..i] then Admitted(old(composites)[k], peerTopics[p], p) else old(composites)[k]
      {
        ghost var cs := composites;
        var k := keys[i];
        Admit(k, p, bad + SlicesOf(composites, SetOf(keys[..i])));
        AdmittedTwice(old(composites)[k], peerTopics[p], p);
        MoreSlices(cs, composites, SetOf(keys[..i]), k);
        assert SetOf(keys[..i + 1]) == SetOf(keys[..i]) + {k};
        assert bad + SlicesOf(cs, SetOf(keys[..i])) + SetOf(cs[k].slices) == bad + SlicesOf(composites, SetOf(keys[..i + 1]));
        assert keys[..i + 1] == keys[..i] + [k];
      }
      assert keys[..|keys|] == keys;
    }

    /** Rebuilds the slices of a set of composites. */
    method RebuildAll(keys: set<Topic>, ghost dirty: set<Topic>)
      requires Structure() && keys <= composites.Keys
      requires OkExcept(composites, index, mesh, subscriptions, SlicesOf(composites, keys) + dirty)
      modifies this`mesh
      ensures Structure() && OkExcept(composites, index, mesh, subscriptions, dirty - SlicesOf(composites, keys))
      ensures Frame(old(mesh), mesh, index, subscriptions)
    {
      hide WellFormed, IndexOk, OkExcept, Rebuilt, SlicesOf, Frame;
      var left := keys;
      ghost var all := SlicesOf(composites, keys);
      ghost var bad := all + dirty;
      FrameSame(mesh, index, subscriptions);
      while left != {}
        invariant left <= composites.Keys && OkExcept(composites, index, mesh, subscriptions, bad)
        invariant bad <= all + dirty && bad * all <= SlicesOf(composites, left)
        invariant Frame(old(mesh), mesh, index, subscriptions)
        decreases |left|
      {
        var k := Pick(left);
        ghost var m, slices := mesh, composites[k].slices;
        RebuildRepairs(composites, index, mesh, subscriptions, bad, slices);
        FewerSlices(composites, left, k);
        RebuildSliceMeshes(k);
        RebuiltFrame(composites, index, m, subscriptions, k);
        FrameTrans(old(mesh), m, mesh, index, subscriptions);
        bad := bad - SetOf(slices);
        left := left - {k};
      }
      NoSlices(composites);
      assert bad * all == {};
      forall s | s in bad ensures s in dirty - all {
        assert s !in bad * all;
      }
      Forgives(composites, index, mesh, subscriptions, bad, dirty - all);
    }

    /** The classification loops at the end of handle_graft. */
    method ClassifyGrafted(p: Peer, topics: seq<Topic>, pruned: set<Topic>, ghost bad: set<Topic>, ghost dirty: set<Topic>)
      requires Structure() && p in peerTopics && OkExcept(composites, index, mesh, subscriptions, dirty + bad)
      requires bad <= SetOf(topics) - pruned
      modifies this`composites, this`mesh
      ensures Structure() && SameSlices(old(composites), composites)
      ensures OkExcept(composites, index, mesh, subscriptions, dirty - (SetOf(topics) - pruned))
      ensures forall k :: k in composites ==>
        composites[k] == old(composites)[k] || composites[k] == Admitted(old(composites)[k], peerTopics[p], p)
      ensures forall k, s :: k in composites && s in topics && s !in pruned && Owns(old(composites), k, s) ==>
        composites[k] == Admitted(old(composites)[k], peerTopics[p], p)
      ensures forall k :: k in composites && composites[k] != old(composites)[k] ==>
        exists s :: s in topics && s !in pruned && Owns(old(composites), k, s)
      ensures Frame(old(mesh), mesh, index, subscriptions)
    {
      hide WellFormed, IndexOk, OkExcept, Admitted, SlicesOf, Classifying, OwnersOfAll, Frame;
      var touched: set<Topic> := {};
      ghost var cs0 := composites;
      NoSlices(composites);
      NothingTouched(composites, peerTopics[p], p);
      assert topics[0..] == topics && SetOf(topics[..0]) - pruned == {};
      Forgives(composites, index, mesh, subscriptions, dirty + bad, SlicesOf(composites, touched) + (SetOf(topics) - pruned + dirty));
      for j := 0 to |topics|
        invariant Structure() && mesh == old(mesh) && Classifying(cs0, composites, peerTopics[p], p, touched)
        invariant OkExcept(composites, index, mesh, subscriptions, SlicesOf(composites, touched) + (SetOf(topics[j..]) - pruned + dirty))
        invariant OwnersOfAll(cs0, SetOf(topics[..j]) - pruned, touched)
      {
        var t := topics[j];
        ghost var rest := SetOf(topics[j + 1..]) - pruned + dirty;
        SplitTopics(topics, j, pruned);
        ClassifyingSlices(cs0, composites, peerTopics[p], p, touched);
        if t !in pruned && t in index {
          SplitRest(topics, j, pruned, dirty);
          OwnersMore(cs0, composites, index, SetOf(topics[..j]) - pruned, touched, t);
          touched := ClassifySlice(p, t, touched, cs0, rest);
        } else {
          NotOwned(cs0, composites, index, t);
          OwnersNoMore(cs0, SetOf(topics[..j]) - pruned, SetOf(topics[..j + 1]) - pruned, touched, t);
          Forgives(composites, index, mesh, subscriptions, SlicesOf(composites, touched) + (SetOf(topics[j..]) - pruned + dirty),
                   SlicesOf(composites, touched) + rest);
        }
      }
      assert topics[..|topics|] == topics;
      assert SlicesOf(composites, touched) + (SetOf(topics[|topics|..]) - pruned + dirty) == SlicesOf(composites, touched) + dirty;
      ClassifyingSlices(cs0, composites, peerTopics[p], p, touched);
      RebuildAll(touched, dirty);
      AcceptedRebuilt(cs0, composites, index, mesh, subscriptions, SetOf(topics) - pruned, touched, dirty);
      ClassifyingEnd(cs0, composites, peerTopics[p], p, touched, SetOf(topics) - pruned);
    }

    /** Admits the peer into the owners of one accepted slice. */
    method ClassifySlice(p: Peer, t: Topic, touched0: set<Topic>, ghost cs0: Composites,
                         ghost rest: set<Topic>) returns (touched: set<Topic>)
      requires Structure() && p in peerTopics && t in index && Classifying(cs0, composites, peerTopics[p], p, touched0)
      requires OkExcept(composites, index, mesh, subscriptions, SlicesOf(composites, touched0) + (rest + {t}))
      modifies this`composites
      ensures Structure() && Classifying(cs0, composites, peerTopics[p], p, touched) && touched == touched0 + SetOf(index[t])
      ensures OkExcept(composites, index, mesh, subscriptions, SlicesOf(composites, touched) + rest)
    {
      hide WellFormed, IndexOk, OkExcept, Admitted, SlicesOf, Classifying;
      ghost var cs := composites;
      var keys := index[t];
      OwnersLive(composites, index, t);
      AdmitOwners(p, keys, SlicesOf(composites, touched0) + (rest + {t}));
      touched := touched0 + SetOf(keys);
      UnionSlices(cs, composites, touched0, SetOf(keys));
      TouchedSlice(composites, index, t, touched);
      Forgives(composites, index, mesh, subscriptions, SlicesOf(cs, touched0) + (rest + {t}) + SlicesOf(composites, SetOf(keys)),
               SlicesOf(composites, touched) + rest);
      ClassifyingMore(cs0, cs, composites, peerTopics[p], p, touched0, keys);
    }

    /**
     handle_graft: a list of topics grafted by one peer; returns the topics answered with PRUNE. Slice meshes and index stay
     consistent; each composite stays as it was or admits the peer, and admits it whenever it or one of its slices was accepted.
     */
    method HandleGraft(p: Peer, topics: seq<Topic>, ctx: GraftContext) returns (pruned: set<Topic>)
      requires Structure()
      modifies this`composites, this`mesh, this`peerTopics
      ensures Structure() && Disturbed() <= old(Disturbed()) - (SetOf(topics) - pruned)
      ensures composites.Keys == old(composites).Keys && pruned <= SetOf(topics)
      ensures topics == [] ==> peerTopics == old(peerTopics)
      ensures topics != [] ==> peerTopics == old(peerTopics)[p := Advertised(old(peerTopics), p) + SetOf(topics)]
      ensures p in explicitPeers ==> pruned == SetOf(topics) && composites == old(composites)
      ensures forall k :: k in composites ==>
        composites[k] == old(composites)[k] || composites[k] == Admitted(old(composites)[k], Advertised(peerTopics, p), p)
      ensures forall k :: k in composites && k in SetOf(topics) - pruned ==>
        composites[k] == Admitted(old(composites)[k], Advertised(peerTopics, p), p)
      ensures forall k, s :: k in composites && s in SetOf(topics) - pruned && Owns(old(composites), k, s) ==>
        composites[k] == Admitted(old(composites)[k], Advertised(peerTopics, p), p)
      ensures forall t :: t in old(mesh) && t !in old(composites) && t in SetOf(topics) - pruned ==> t in mesh && p in mesh[t]
      ensures forall t :: t in pruned ==> p in explicitPeers || Refusable(ctx, ctx.outbound, t)
      ensures GraftFrame(old(mesh), mesh, index, subscriptions, p)
      ensures p !in explicitPeers ==>
        SimpleGrafts(config, ctx, ctx.outbound, old(mesh), mesh, index, composites.Keys, SetOf(topics), p, pruned)
      ensures p !in explicitPeers ==>
        forall k :: k in topics && k in composites && Refused(config, ctx, ctx.outbound, old(composites), p, k) ==> k in pruned
      ensures p !in explicitPeers ==>
        forall k :: k in topics && k in composites && (ctx.backoffActive(k) || ctx.belowZero) ==> k in pruned
      ensures p !in explicitPeers ==>
        forall t :: t in topics && t in old(mesh) && t !in index && t !in composites && p !in old(mesh)[t] ==>
          && t in mesh && mesh[t] == (if t in pruned then old(mesh)[t] else old(mesh)[t] + {p})
          && (t in pruned <==>
                || ctx.backoffActive(t) || ctx.belowZero
                || (!ctx.outbound && |old(mesh)[t]| >= config.high)
                || (!ctx.outbound && config.subnetCap > 0 && exists b ::
                      b in ctx.buckets(p) && |set q | q in old(mesh)[t] && b in ctx.buckets(q)| >= config.subnetCap))
    {
      hide WellFormed, IndexOk, OkExcept, Admitted, Touched, GraftFrame, Frame, SimpleGrafts, Refused, Disturbance;
      ghost var dirty := Disturbed();
      DisturbedWithin(composites, index, mesh, subscriptions, dirty);
      GraftFrameSame(mesh, index, subscriptions, p);
      if topics == [] {
        SimpleGraftsStart(config, ctx, ctx.outbound, mesh, index, composites.Keys, p);
        assert SetOf(topics) == {};
        return {};
      }
      peerTopics := peerTopics[p := Advertised(peerTopics, p) + SetOf(topics)];
      ghost var bad: set<Topic> := {};
      ghost var cs0, m0 := composites, mesh;
      UntouchedAll(composites, peerTopics[p], p);
      if p in explicitPeers {
        pruned := SetOf(topics);
      } else {
        pruned, bad := GraftTopics(p, topics, ctx, dirty);
      }
      ghost var cs1, m1 := composites, mesh;
      TouchedSlices(cs0, cs1, peerTopics[p], p, SetOf(topics));
      assert dirty + {} == dirty;
      ClassifyGrafted(p, topics, pruned, bad, dirty);
      DisturbedWithin(composites, index, mesh, subscriptions, dirty - (SetOf(topics) - pruned));
      forall k | k in composites
        ensures composites[k] == cs0[k] || composites[k] == Admitted(cs0[k], peerTopics[p], p)
        ensures cs1[k] == Admitted(cs0[k], peerTopics[p], p) ==> composites[k] == Admitted(cs0[k], peerTopics[p], p)
        ensures composites[k] == Admitted(cs1[k], peerTopics[p], p) ==> composites[k] == Admitted(cs0[k], peerTopics[p], p)
      {
        TouchedAt(cs0, cs1, peerTopics[p], p, SetOf(topics), k);
        AdmittedTwice(cs0[k], peerTopics[p], p);
      }
      SameOwns(cs0, cs1);
      FrameIsGraftFrame(m1, mesh, index, subscriptions, p);
      if p !in explicitPeers {
        SimpleGraftsFrame(config, ctx, ctx.outbound, m0, m1, mesh, index, subscriptions, composites.Keys, SetOf(topics), p, pruned);
        SimpleGraftsExact(config, ctx, ctx.outbound, m0, mesh, index, composites.Keys, SetOf(topics), p, pruned);
        RefusedExactly(config, ctx, ctx.outbound, cs0, p);
      }
      GraftFrameTrans(m0, m1, mesh, index, subscriptions, p);
      forall t | t in m0 && t !in cs0 && t in SetOf(topics) - pruned ensures t in mesh && p in mesh[t] {
        UndisturbedOk(composites, index, mesh, subscriptions, dirty - (SetOf(topics) - pruned), t);
        AcceptedHolds(cs0, composites, index, m1, mesh, subscriptions, peerTopics[p], p, t);
      }
    }

    /** Demotes the peer from same to broker in the given composites. */
    method DemoteOwners(p: Peer, keys: seq<Topic>, ghost dirty: set<Topic>)
      requires Structure() && OkExcept(composites, index, mesh, subscriptions, dirty) && forall k :: k in keys ==> k in composites
      modifies this`composites
      ensures Structure() && SameSlices(old(composites), composites)
      ensures OkExcept(composites, index, mesh, subscriptions, SlicesOf(composites, SetOf(keys)) + dirty)
      ensures forall k :: k in composites ==> composites[k] == if k in keys then Demoted(old(composites)[k], p) else old(composites)[k]
    {
      hide WellFormed, IndexOk, OkExcept, SlicesOf, Demoted, SameSlices, DemotedIn;
      NoSlices(composites);
      NoneDemoted(composites, p);
      assert SetOf(keys[..0]) == {} && {} + dirty == dirty;
      for i := 0 to |keys|
        invariant Structure() && DemotedIn(old(composites), composites, SetOf(keys[..i]), p)
        invariant OkExcept(composites, index, mesh, subscriptions, SlicesOf(composites, SetOf(keys[..i])) + dirty)
      {
        var k := keys[i];
        assert k in keys && SetOf(keys[..i + 1]) == SetOf(keys[..i]) + {k};
        DemotedKeys(old(composites), composites, SetOf(keys[..i]), p);
        WellFormedDisjoint(composites, k);
        var c := Demoted(composites[k], p);
        ChangeKeepsStructure(composites, index, k, c);
        ChangedSlices(composites, index, mesh, subscriptions, SetOf(keys[..i]), dirty, k, c);
        DemotedMore(old(composites), composites, SetOf(keys[..i]), p, k);
        composites := composites[k := c];
      }
      assert keys[..|keys|] == keys;
      DemotedAll(old(composites), composites, SetOf(keys), p);
    }

    /** One topic of handle_prune: a slice PRUNE demotes in every owner, any other takes the peer out of that mesh. */
    method HandlePrune(p: Peer, t: Topic)
      requires Structure()
      modifies this`composites, this`mesh
      ensures Structure() && Disturbed() <= old(Disturbed()) - {t} && composites.Keys == old(composites).Keys
      ensures forall k :: k in composites ==>
        composites[k] == if Owns(old(composites), k, t) then Demoted(old(composites)[k], p) else old(composites)[k]
      ensures forall k :: k in composites && t in composites[k].slices ==>
        && p !in composites[k].same && (p in composites[k].broker <==> p in old(composites)[k].same + old(composites)[k].broker)
        && composites[k].same == old(composites)[k].same - {p} && composites[k].broker - {p} == old(composites)[k].broker - {p}
      ensures t !in index && t in old(mesh) ==> mesh == old(mesh)[t := old(mesh)[t] - {p}]
      ensures t !in index && t !in old(mesh) ==> mesh == old(mesh)
      ensures t in index ==> Frame(old(mesh), mesh, index, subscriptions)
    {
      hide WellFormed, IndexOk, OkExcept, SlicesOf, Owners, Demoted, Frame, Disturbance;
      NotOwned(composites, composites, index, t);
      ghost var dirty := Disturbed();
      DisturbedWithin(composites, index, mesh, subscriptions, dirty);
      DisturbedOwned(composites, index, mesh, subscriptions);
      if t in index {
        OwnersLive(composites, index, t);
        DemoteOwners(p, index[t], dirty);
        RebuildAll(SetOf(index[t]), dirty);
        TouchedSlice(composites, index, t, SetOf(index[t]));
        Forgives(composites, index, mesh, subscriptions, dirty - SlicesOf(composites, SetOf(index[t])), dirty - {t});
      } else if t in mesh {
        InsertDisturbs(composites, index, mesh, subscriptions, dirty, t, mesh[t] - {p});
        Forgives(composites, index, mesh[t := mesh[t] - {p}], subscriptions, dirty + {t}, dirty - {t});
        mesh := mesh[t := mesh[t] - {p}];
      } else {
        Forgives(composites, index, mesh, subscriptions, dirty, dirty - {t});
      }
      DisturbedWithin(composites, index, mesh, subscriptions, dirty - {t});
      forall k | k in composites && t in composites[k].slices
        ensures p !in composites[k].same && (p in composites[k].broker <==> p in old(composites)[k].same + old(composites)[k].broker)
        ensures composites[k].same == old(composites)[k].same - {p} && composites[k].broker - {p} == old(composites)[k].broker - {p}
      {
        DemotedExact(old(composites)[k], p);
        assert Owns(old(composites), k, t);
      }
    }

    /** mesh_recipients. */
    method MeshRecipients(m: Topic) returns (out: set<Peer>)
      ensures out == Recipients(composites, mesh, m)
      ensures forall p :: p in out <==>
        || (m in mesh && p in mesh[m]) || (m in composites && p in composites[m].same + composites[m].broker)
        || exists s :: s in Slices(m) && s in mesh && p in mesh[s]
      ensures Structure() && !IsZero(m) && (exists s :: s in Slices(m) && s !in Disturbed()) ==>
        forall b :: b in composites && Covers(b, m) ==> composites[b].Members() <= out
    {
      hide Slices, IsZero, Covers, WellFormed, IndexOk, Disturbance;
      out := {};
      if m in mesh {
        out := out + mesh[m];
      }
      if m in composites {
        out := out + composites[m].same + composites[m].broker;
      }
      ghost var base := out;
      var slices := SliceBitmask(m);
      for j := 0 to |slices|
        invariant out == base + MeshUnion(mesh, slices[..j])
      {
        MeshUnionMore(mesh, slices, j);
        if slices[j] in mesh {
          out := out + mesh[slices[j]];
        }
      }
      assert slices[..|slices|] == slices;
      if Structure() && !IsZero(m) && exists s :: s in Slices(m) && s !in Disturbed() {
        forall b | b in composites && Covers(b, m) ensures composites[b].Members() <= out {
          CoveringRelayReached(composites, index, mesh, subscriptions, b, m);
        }
      }
    }

    /** subscribe and join: a multi-bit topic becomes a composite, another gets a mesh of chosen peers unless it has one. */
    method SubscribeTo(t: Topic, backedOff: Peer -> bool, chosen: set<Peer>) returns (added: bool)
      requires Structure()
      modifies this`subscriptions, this`composites, this`index, this`mesh
      ensures Structure() && Disturbed() <= old(Disturbed())
      ensures added == (t !in old(subscriptions)) && subscriptions == old(subscriptions) + {t}
      ensures !added || t in old(mesh) || t in old(composites) ==> composites == old(composites) && index == old(index) && mesh == old(mesh)
      ensures added && t !in old(mesh) && t !in old(composites) && |Slices(t)| == 1 ==>
        composites == old(composites) && index == old(index) && mesh == old(mesh)[t := chosen]
      ensures added && t !in old(mesh) && t !in old(composites) && |Slices(t)| > 1 ==>
        && t in composites && composites == old(composites)[t := composites[t]]
        && composites[t].slices == Slices(t) && Chosen(composites[t], peerTopics, backedOff, config.n)
        && index == Registered(old(index), Slices(t), t) && mesh == Rebuilt(composites, old(mesh), subscriptions, Slices(t))
    {
      hide WellFormed, IndexOk, Rebuilt, Registered, Slices, Chosen, Disturbance, OkExcept;
      if t in subscriptions {
        assert subscriptions + {t} == subscriptions;
        return false;
      }
      added := true;
      DualDisturbance(composites, index, mesh, subscriptions, t);
      subscriptions := subscriptions + {t};
      if t in mesh || t in composites {
        return;
      }
      var slices := SliceBitmask(t);
      SlicesDistinct(t);
      if |slices| > 1 {
        JoinComposite(t, backedOff);
      } else {
        FreshMesh(composites, index, mesh, subscriptions, t, chosen);
        mesh := mesh[t := chosen];
      }
    }

    /** unsubscribe and leave: a composite is torn down, another topic loses its mesh, even one that a composite owns. */
    method UnsubscribeFrom(t: Topic) returns (removed: bool)
      requires Structure()
      modifies this`subscriptions, this`composites, this`index, this`mesh
      ensures Structure() && Disturbed() <= old(Disturbed()) + {t}
      ensures removed == (t in old(subscriptions)) && subscriptions == old(subscriptions) - {t}
      ensures !removed ==> composites == old(composites) && index == old(index) && mesh == old(mesh)
      ensures removed && t !in old(composites) ==> composites == old(composites) && index == old(index) && mesh == old(mesh) - {t}
      ensures removed && t !in old(composites) ==> Disturbed() == old(Disturbed()) + index.Keys * {t}
      ensures removed && t in old(composites) ==>
        && composites == old(composites) - {t} && index == Unregistered(old(index), old(composites)[t].slices, t)
        && LeaveFrame(old(mesh), mesh, index, subscriptions, SetOf(old(composites)[t].slices))
    {
      hide WellFormed, IndexOk, Unregistered, LeaveFrame, Disturbance, OkExcept;
      if t !in subscriptions {
        assert subscriptions - {t} == subscriptions;
        return false;
      }
      removed := true;
      SimpleDisturbance(composites, index, mesh, subscriptions, t);
      subscriptions := subscriptions - {t};
      if t in composites {
        LeaveComposite(t);
      } else {
        mesh := mesh - {t};
      }
    }

    /** The loop of handle_received_subscriptions: insertions happen at once, removals are collected. */
    method TakeSubscriptions(p: Peer, list: seq<Subscription>, welcome: Topic -> bool) returns (left: seq<Topic>)
      requires p in peerTopics
      modifies this`mesh, this`peerTopics
      ensures peerTopics == old(peerTopics)[p := Readvertised(old(peerTopics)[p], list)]
      ensures mesh == Taken(old(mesh), config.low, WelcomeTo(explicitPeers, welcome, p), list, p)
      ensures forall t :: t in left <==> Unsubscribe(t) in list
    {
      hide Taken;
      left := [];
      ghost var m, f := mesh, WelcomeTo(explicitPeers, welcome, p);
      TakenNone(m, config.low, f, p);
      assert list[..0] == [];
      for i := 0 to |list|
        invariant p in peerTopics && peerTopics == old(peerTopics)[p := Readvertised(old(peerTopics)[p], list[..i])]
        invariant mesh == Taken(m, config.low, f, list[..i], p)
        invariant forall t :: t in left <==> Unsubscribe(t) in list[..i]
      {
        assert list[..i + 1] == list[..i] + [list[i]] && list[..i + 1][..i] == list[..i];
        TakenOne(m, config.low, f, list[..i], p, list[i]);
        match list[i]
        case Subscribe(t) =>
          peerTopics := peerTopics[p := peerTopics[p] + {t}];
          if p !in explicitPeers && welcome(t) {
            if t in mesh && |mesh[t]| < config.low {
              mesh := mesh[t := mesh[t] + {p}];
            }
          }
        case Unsubscribe(t) =>
          peerTopics := peerTopics[p := peerTopics[p] - {t}];
          left := left + [t];
      }
      assert list[..|list|] == list;
    }

    /**
     handle_received_subscriptions with the entries that pass the filter: the meshes take the peer in or lose it, then the peer is
     classified. Disturbed are exactly the slices that the mesh edits put out of order and no changed composite owns.
     */
    method HandleSubscriptions(p: Peer, list: seq<Subscription>, welcome: Topic -> bool, backedOff: Topic -> bool)
      requires Structure()
      modifies this`composites, this`mesh, this`peerTopics
      ensures Structure() && SameSlices(old(composites), composites)
      ensures p !in old(peerTopics) ==> composites == old(composites) && mesh == old(mesh) && peerTopics == old(peerTopics)
      ensures p in old(peerTopics) ==> peerTopics == old(peerTopics)[p := Readvertised(old(peerTopics)[p], list)]
      ensures p in old(peerTopics) ==> forall k :: k in composites ==>
        composites[k] == Reclassified(old(composites)[k], peerTopics[p], config.n, backedOff(k), p)
      ensures p in old(peerTopics) ==>
        var after := MeshesAfter(old(mesh), config.low, WelcomeTo(explicitPeers, welcome, p), list, p);
        && Frame(after, mesh, index, subscriptions)
        && Disturbed() == Disturbance(old(composites), index, after, subscriptions)
                          - SlicesOf(composites, Changed(old(composites), composites))
      ensures forall s :: s in Disturbed() ==> s in old(Disturbed()) || Subscribe(s) in list || Unsubscribe(s) in list
    {
      hide WellFormed, IndexOk, Reclassified, Frame, Disturbance, SlicesOf, Changed, MeshesAfter, Taken, WelcomeTo;
      if p !in peerTopics {
        return;
      }
      ghost var m, f := mesh, WelcomeTo(explicitPeers, welcome, p);
      var left := TakeSubscriptions(p, list, welcome);
      RemoveFrom(p, left);
      TakenThenLeft(m, config.low, f, list, p, left);
      ghost var after := mesh;
      NamedDisturbance(composites, index, m, subscriptions, config.low, f, list, p);
      ReclassifyForPeer(p, backedOff);
    }

    /** remove_peer_from_mesh for a list of topics. */
    method RemoveFrom(p: Peer, topics: seq<Topic>)
      modifies this`mesh
      ensures mesh == Unmeshed(old(mesh), SetOf(topics), p)
    {
      hide Unmeshed;
      ghost var m := mesh;
      UnmeshedNone(m, p);
      assert SetOf(topics[..0]) == {};
      for j := 0 to |topics|
        invariant mesh == Unmeshed(m, SetOf(topics[..j]), p)
      {
        assert SetOf(topics[..j + 1]) == SetOf(topics[..j]) + {topics[j]};
        UnmeshedOne(m, SetOf(topics[..j]), p, topics[j]);
        if topics[j] in mesh {
          mesh := mesh[topics[j] := mesh[topics[j]] - {p}];
        }
      }
      assert topics[..|topics|] == topics;
    }

    /** Takes a peer out of the meshes of a set of topics. */
    method LeaveMeshes(p: Peer, topics: set<Topic>)
      modifies this`mesh
      ensures mesh == Unmeshed(old(mesh), topics, p)
    {
      hide Unmeshed;
      UnmeshedNone(mesh, p);
      var left := topics;
      assert topics - left == {};
      while left != {}
        invariant left <= topics && mesh == Unmeshed(old(mesh), topics - left, p)
        decreases |left|
      {
        var t := Pick(left);
        UnmeshedOne(old(mesh), topics - left, p, t);
        assert topics - (left - {t}) == topics - left + {t};
        if t in mesh {
          mesh := mesh[t := mesh[t] - {p}];
        }
        left := left - {t};
      }
      assert topics - left == topics;
    }

    /** Takes a peer out of every composite. */
    method LeaveComposites(p: Peer)
      modifies this`composites
      ensures composites == Forgotten(old(composites), p)
    {
      hide Forgotten, Forgetting;
      var keys := composites.Keys;
      ForgottenStart(composites, p);
      while keys != {}
        invariant keys <= old(composites).Keys && Forgetting(old(composites), composites, keys, p)
        decreases |keys|
      {
        var k := Pick(keys);
        ForgettingStep(old(composites), composites, keys, p, k);
        composites := composites[k := composites[k].(same := composites[k].same - {p}, broker := composites[k].broker - {p})];
        keys := keys - {k};
      }
      ForgottenAll(old(composites), composites, p);
    }

    /** The last connection of a peer closes: out of the meshes of its topics and out of every composite, nothing is rebuilt. */
    method DisconnectPeer(p: Peer)
      requires Structure()
      modifies this`composites, this`mesh, this`peerTopics
      ensures Structure()
      ensures p !in old(peerTopics) ==> composites == old(composites) && mesh == old(mesh) && peerTopics == old(peerTopics)
      ensures p in old(peerTopics) ==> peerTopics == old(peerTopics) - {p} && composites == Forgotten(old(composites), p)
      ensures p in old(peerTopics) ==> mesh == Unmeshed(old(mesh), old(peerTopics)[p], p)
      ensures p in old(peerTopics) ==> forall s :: s in index && s !in old(Disturbed()) ==>
        (s in Disturbed() <==> s !in subscriptions && s !in old(peerTopics)[p] && s in old(mesh) && p in old(mesh)[s])
    {
      hide WellFormed, IndexOk, Unmeshed, Forgotten, Disturbance;
      if p !in peerTopics {
        return;
      }
      ghost var cs, m, topics := composites, mesh, peerTopics[p];
      ForgottenStructure(cs, index, p);
      LeaveMeshes(p, peerTopics[p]);
      LeaveComposites(p);
      peerTopics := peerTopics - {p};
      forall s | s in index && s !in Disturbance(cs, index, m, subscriptions)
        ensures s in Disturbed() <==> s !in subscriptions && s !in topics && s in m && p in m[s]
      {
        DisconnectedSlice(cs, index, m, subscriptions, topics, p, s);
      }
    }

    /** heartbeat: whatever the per-topic step makes of the meshes that are not purely composite, then the composite pass. */
    method HeartbeatPass(simple: (Topic, set<Peer>) -> set<Peer>, connected: set<Peer>, score: Score,
                         backedOff: (Topic, Peer) -> bool, buckets: Buckets)
      requires Structure()
      modifies this`composites, this`mesh
      ensures Structure() && Disturbed() == {} && composites.Keys == old(composites).Keys
      ensures forall k :: k in composites ==>
        Maintained(config, PoolFor(k, score, backedOff, buckets), connected, old(composites)[k], composites[k])
      ensures forall t :: t !in index ==> (t in mesh <==> t in old(mesh)) && (t in mesh ==> mesh[t] == simple(t, old(mesh)[t]))
      ensures forall t :: t in index && t in subscriptions && t in old(mesh) ==> t in mesh && simple(t, old(mesh)[t]) <= mesh[t]
    {
      hide WellFormed, IndexOk, Maintained, Disturbance;
      mesh := map t | t in mesh :: if t in index && t !in subscriptions then mesh[t] else simple(t, mesh[t]);
      HeartbeatComposites(connected, score, backedOff, buckets);
    }

    /**
     Any run of operations, in any order and from any mesh contents: the reverse index stays exact, and every owned slice that no
     operation has put out of order since the last heartbeat, or since the start, is derived from its owners.
     */
    method Run(ops: seq<Operation>) returns (ghost added: seq<set<Topic>>)
      requires Structure()
      modifies this
      ensures Structure() && |added| == |ops|
      ensures Disturbed() <= SinceHeartbeat(old(Disturbed()), ops, added)
      ensures forall i, s :: 0 <= i < |ops| && s in added[i] ==> MayDisturb(ops[i], s)
    {
      hide WellFormed, IndexOk, Disturbance, SinceHeartbeat, MayDisturb;
      added := [];
      ghost var start := Disturbed();
      NoOperations(start);
      assert ops[..0] == [];
      for i := 0 to |ops|
        invariant Structure() && |added| == i && Disturbed() <= SinceHeartbeat(start, ops[..i], added)
        invariant forall j, s :: 0 <= j < i && s in added[j] ==> MayDisturb(ops[j], s)
      {
        ghost var before := Disturbed();
        Step(ops[i]);
        ghost var more := Disturbed() - before;
        MoreOperations(start, ops, added, i, before, Disturbed());
        added := added + [more];
      }
      assert ops[..|ops|] == ops;
    }

    /** One operation: a heartbeat puts everything in order, the others keep in order what they may not disturb. */
    method Step(op: Operation)
      requires Structure()
      modifies this
      ensures Structure() && (op.Heartbeat? ==> Disturbed() == {})
      ensures forall s :: s in Disturbed() && s !in old(Disturbed()) ==> MayDisturb(op, s)
    {
      hide WellFormed, IndexOk, Disturbance, Maintained, Reclassified, Chosen, Frame, LeaveFrame, GraftFrame, SimpleGrafts, Forgotten,
        Unmeshed, MeshesAfter, Registered, Unregistered, Rebuilt, Admitted, Demoted;
      match op
      case Subscribing(t, backedOff, chosen) => var added := SubscribeTo(t, backedOff, chosen);
      case Unsubscribing(t) => var removed := UnsubscribeFrom(t);
      case Graft(p, topics, ctx) => var pruned := HandleGraft(p, topics, ctx);
      case Prune(p, t) => HandlePrune(p, t);
      case Announce(p, list, welcome, backedOff) => HandleSubscriptions(p, list, welcome, backedOff);
      case Connect(p) => peerTopics := peerTopics[p := {}];
      case Disconnect(p) => DisconnectPeer(p);
      case Heartbeat(simple, connected, score, backedOff, buckets) => HeartbeatPass(simple, connected, score, backedOff, buckets);
    }

    function PoolFor(k: Topic, score: Score, backedOff: (Topic, Peer) -> bool, buckets: Buckets): (p: Pool)
      reads this
    {
      Pool(peerTopics, explicitPeers, p => backedOff(k, p), score, buckets)
    }
  }

  // ----- lemmas -----

  lemma ReclassifiedShape(c: Composite, advertised: set<Topic>, n: nat, backedOff: bool, p: Peer)
    requires c.same !! c.broker
    ensures var r := Reclassified(c, advertised, n, backedOff, p); r.slices == c.slices && r.same !! r.broker
  {
    hide CoversEvery, CoversSome;
  }

  /** A peer that was not a member comes in if there is room, no backoff and a slice it covers, as a full coverer or as a broker. */
  lemma ReclassifiedExact(c: Composite, advertised: set<Topic>, n: nat, backedOff: bool, p: Peer)
    requires p !in c.Members()
    ensures var r, full := Reclassified(c, advertised, n, backedOff, p),
                           forall s :: s in c.slices ==> exists b :: b in advertised && Covers(b, s);
      && (p in r.Members() <==>
            && |c.same| + |c.broker| < n && !backedOff
            && (full || exists s, b :: s in c.slices && b in advertised && Covers(b, s)))
      && (p in r.Members() ==> (p in r.same <==> full) && (p in r.broker <==> !full))
  {
    hide CoversEvery, CoversSome, Covers;
    CoversExactly(advertised, c.slices);
  }

  lemma ReclassifiedAll(cs0: Composites, cs: Composites, advertised: set<Topic>, n: nat, backedOff: Topic -> bool, p: Peer)
    requires SameSlices(cs0, cs) && forall k :: k in cs ==> cs[k] == Reclassified(cs0[k], advertised, n, backedOff(k), p)
    ensures forall k :: k in cs && p !in cs0[k].Members() ==>
      var c, full := cs0[k], forall s :: s in cs[k].slices ==> exists b :: b in advertised && Covers(b, s);
      && (p in cs[k].Members() <==>
            && |c.same| + |c.broker| < n && !backedOff(k)
            && (full || exists s, b :: s in c.slices && b in advertised && Covers(b, s)))
      && (p in cs[k].Members() ==> (p in cs[k].same <==> full) && (p in cs[k].broker <==> !full))
  {
    hide Reclassified, Covers;
    forall k | k in cs && p !in cs0[k].Members()
      ensures var c, full := cs0[k], forall s :: s in cs[k].slices ==> exists b :: b in advertised && Covers(b, s);
        && (p in cs[k].Members() <==>
              && |c.same| + |c.broker| < n && !backedOff(k)
              && (full || exists s, b :: s in c.slices && b in advertised && Covers(b, s)))
        && (p in cs[k].Members() ==> (p in cs[k].same <==> full) && (p in cs[k].broker <==> !full))
    {
      ReclassifiedExact(cs0[k], advertised, n, backedOff(k), p);
    }
  }

  lemma CoversExactly(advertised: set<Topic>, slices: seq<Topic>)
    ensures CoversEvery(advertised, slices) <==> forall s :: s in slices ==> exists b :: b in advertised && Covers(b, s)
    ensures CoversSome(advertised, slices) <==> exists s, b :: s in slices && b in advertised && Covers(b, s)
  {
    hide Covers;
    if CoversEvery(advertised, slices) {
      forall s | s in slices ensures exists b :: b in advertised && Covers(b, s) {
        var i :| 0 <= i < |slices| && slices[i] == s;
        assert PeerCovers(advertised, slices[i]);
      }
    }
    if forall s :: s in slices ==> exists b :: b in advertised && Covers(b, s) {
      forall i | 0 <= i < |slices| ensures PeerCovers(advertised, slices[i]) {
        assert slices[i] in slices;
      }
    }
    if exists s, b :: s in slices && b in advertised && Covers(b, s) {
      var s, b :| s in slices && b in advertised && Covers(b, s);
      var i :| 0 <= i < |slices| && slices[i] == s;
      assert PeerCovers(advertised, slices[i]);
    }
  }

  /** What a whole-bitmask GRAFT does to the composites. */
  ghost function GraftedWhole(cfg: Config, ctx: GraftContext, outbound: bool, cs: Composites,
                              advertised: set<Topic>, t: Topic, p: Peer): (r: Composites)
  {
    if t in cs && !RefusesComposite(cfg, ctx, outbound, t, cs[t].Members(), p) then cs[t := Admitted(cs[t], advertised, p)] else cs
  }

  /** Unowned meshes stay as they are, and on dual-role slices nobody is lost. */
  ghost predicate Frame(before: Mesh, after: Mesh, index: Index, subs: set<Topic>) {
    && (forall s :: s !in index ==> (s in after <==> s in before) && (s in before ==> after[s] == before[s]))
    && (forall s :: s in index && s in subs && s in before ==> s in after && before[s] <= after[s])
  }

  lemma FrameSame(mesh: Mesh, index: Index, subs: set<Topic>)
    ensures Frame(mesh, mesh, index, subs)
  {
  }

  lemma FrameTrans(a: Mesh, b: Mesh, c: Mesh, index: Index, subs: set<Topic>)
    requires Frame(a, b, index, subs) && Frame(b, c, index, subs)
    ensures Frame(a, c, index, subs)
  {
  }

  lemma RebuiltFrame(cs: Composites, index: Index, mesh: Mesh, subs: set<Topic>, k: Topic)
    requires IndexOk(cs, index) && k in cs
    ensures Frame(mesh, Rebuilt(cs, mesh, subs, cs[k].slices), index, subs)
  {
    hide Owners, Rebuilt;
    SlicesIndexed(cs, index, k);
    var after := Rebuilt(cs, mesh, subs, cs[k].slices);
    forall s
      ensures s !in cs[k].slices && s in mesh ==> s in after && after[s] == mesh[s]
      ensures s !in cs[k].slices && s !in mesh ==> s !in after
      ensures s in cs[k].slices ==> s in after && after[s] == RebuiltSlice(cs, mesh, subs, s)
    {
      RebuiltAt(cs, mesh, subs, cs[k].slices, s);
    }
  }

  /** As Frame, except that the unowned topics among those left lose their meshes. */
  ghost predicate LeaveFrame(before: Mesh, after: Mesh, index: Index, subs: set<Topic>, left: set<Topic>) {
    && (forall s :: s !in index ==> (s in after <==> s in before && s !in left) && (s in after ==> after[s] == before[s]))
    && (forall s :: s in index && s in subs && s in before ==> s in after && before[s] <= after[s])
  }

  lemma LeaveNothing(mesh: Mesh, index: Index, subs: set<Topic>)
    ensures LeaveFrame(mesh, mesh, index, subs, {})
  {
  }

  lemma LeaveRemoves(a: Mesh, b: Mesh, index: Index, subs: set<Topic>, left: set<Topic>, s: Topic)
    requires LeaveFrame(a, b, index, subs, left) && s !in index
    ensures LeaveFrame(a, b - {s}, index, subs, left + {s})
  {
  }

  lemma LeaveRebuilds(a: Mesh, b: Mesh, c: Mesh, index: Index, subs: set<Topic>, left: set<Topic>, s: Topic)
    requires LeaveFrame(a, b, index, subs, left) && Frame(b, c, index, subs) && s in index
    ensures LeaveFrame(a, c, index, subs, left + {s})
  {
  }

  /** As Frame, except that the peer may have been added. */
  ghost predicate GraftFrame(before: Mesh, after: Mesh, index: Index, subs: set<Topic>, p: Peer) {
    && (forall s :: s !in index ==> (s in after <==> s in before) && (s in before ==> before[s] <= after[s] <= before[s] + {p}))
    && (forall s :: s in index && s in subs && s in before ==> s in after && before[s] <= after[s])
  }

  lemma GraftFrameTrans(a: Mesh, b: Mesh, c: Mesh, index: Index, subs: set<Topic>, p: Peer)
    requires GraftFrame(a, b, index, subs, p) && GraftFrame(b, c, index, subs, p)
    ensures GraftFrame(a, c, index, subs, p)
  {
  }

  lemma FrameIsGraftFrame(before: Mesh, after: Mesh, index: Index, subs: set<Topic>, p: Peer)
    requires Frame(before, after, index, subs)
    ensures GraftFrame(before, after, index, subs, p)
  {
  }

  lemma GraftFrameSame(mesh: Mesh, index: Index, subs: set<Topic>, p: Peer)
    ensures GraftFrame(mesh, mesh, index, subs, p)
  {
  }

  function Advertised(topics: map<Peer, set<Topic>>, p: Peer): (r: set<Topic>) { if p in topics then topics[p] else {} }

  /** Composites keep their slices and stay as they were or, for the given keys, admit the peer. */
  ghost predicate Touched(cs0: Composites, cs: Composites, advertised: set<Topic>, p: Peer, keys: set<Topic>) {
    && cs.Keys == cs0.Keys
    && forall k :: k in cs ==> cs[k] == cs0[k] || (k in keys && cs[k] == Admitted(cs0[k], advertised, p))
  }

  lemma UntouchedAll(cs: Composites, advertised: set<Topic>, p: Peer)
    ensures forall keys :: Touched(cs, cs, advertised, p, keys)
  {
    hide Admitted;
  }

  lemma TouchedAt(cs0: Composites, cs: Composites, advertised: set<Topic>, p: Peer, keys: set<Topic>, k: Topic)
    requires Touched(cs0, cs, advertised, p, keys) && k in cs
    ensures k in cs0 && (cs[k] == cs0[k] || cs[k] == Admitted(cs0[k], advertised, p))
  {
    hide Admitted;
  }

  lemma TouchedSlices(cs0: Composites, cs: Composites, advertised: set<Topic>, p: Peer, keys: set<Topic>)
    requires Touched(cs0, cs, advertised, p, keys)
    ensures SameSlices(cs0, cs)
  {
    hide CoversEvery;
  }

  lemma TouchedMore(cfg: Config, ctx: GraftContext, outbound: bool, cs0: Composites, cs: Composites,
                    advertised: set<Topic>, p: Peer, keys: set<Topic>, t: Topic)
    requires Touched(cs0, cs, advertised, p, keys)
    ensures Touched(cs0, GraftedWhole(cfg, ctx, outbound, cs, advertised, t, p), advertised, p, keys + {t})
  {
    hide Admitted, ViolatesCap;
    if t in cs {
      AdmittedTwice(cs0[t], advertised, p);
    }
  }

  lemma DemotedExact(c: Composite, p: Peer)
    ensures var r := Demoted(c, p);
      && r.slices == c.slices && p !in r.same && (p in r.broker <==> p in c.same + c.broker)
      && r.same == c.same - {p} && r.broker - {p} == c.broker - {p}
  {
  }

  /** A peer that covers every slice ends up in same, another stays where it is or becomes a broker. */
  lemma AdmittedExact(c: Composite, advertised: set<Topic>, p: Peer)
    ensures var r := Admitted(c, advertised, p);
      && (p in r.same <==> p in c.same || forall s :: s in c.slices ==> exists b :: b in advertised && Covers(b, s))
      && p in r.same + r.broker && (p !in r.same ==> p in r.broker) && (c.same !! c.broker ==> r.same !! r.broker)
      && r.same - {p} == c.same - {p} && r.broker - {p} == c.broker - {p}
  {
    hide CoversEvery, Covers;
    CoversExactly(advertised, c.slices);
  }

  /** The peer has been demoted in the given composites, and nothing else has changed. */
  ghost predicate DemotedIn(cs0: Composites, cs: Composites, keys: set<Topic>, p: Peer) {
    SameSlices(cs0, cs) && forall k :: k in cs ==> cs[k] == if k in keys then Demoted(cs0[k], p) else cs0[k]
  }

  lemma NoneDemoted(cs: Composites, p: Peer)
    ensures DemotedIn(cs, cs, {}, p)
  {
  }

  lemma DemotedKeys(cs0: Composites, cs: Composites, keys: set<Topic>, p: Peer)
    requires DemotedIn(cs0, cs, keys, p)
    ensures cs.Keys == cs0.Keys
  {
    hide Demoted;
  }

  lemma DemotedAll(cs0: Composites, cs: Composites, keys: set<Topic>, p: Peer)
    requires DemotedIn(cs0, cs, keys, p)
    ensures SameSlices(cs0, cs) && forall k :: k in cs ==> cs[k] == if k in keys then Demoted(cs0[k], p) else cs0[k]
  {
    hide Demoted;
  }

  lemma DemotedMore(cs0: Composites, cs: Composites, keys: set<Topic>, p: Peer, k: Topic)
    requires DemotedIn(cs0, cs, keys, p) && k in cs
    ensures DemotedIn(cs0, cs[k := Demoted(cs[k], p)], keys + {k}, p)
  {
    hide Demoted;
    DemotedTwice(cs0[k], p);
  }

  /** Changing one more composite disturbs its slices at most. */
  lemma ChangedSlices(cs: Composites, index: Index, mesh: Mesh, subs: set<Topic>, keys: set<Topic>, dirty: set<Topic>, k: Topic,
                      c: Composite)
    requires k in cs && c.slices == cs[k].slices && OkExcept(cs, index, mesh, subs, SlicesOf(cs, keys) + dirty)
    ensures OkExcept(cs[k := c], index, mesh, subs, SlicesOf(cs[k := c], keys + {k}) + dirty)
  {
    hide OkExcept, SlicesOf;
    ChangeDisturbs(cs, index, mesh, subs, SlicesOf(cs, keys) + dirty, k, c);
    MoreSlices(cs, cs[k := c], keys, k);
    assert SlicesOf(cs, keys) + dirty + SetOf(cs[k].slices) == SlicesOf(cs[k := c], keys + {k}) + dirty;
  }

  lemma DemotedTwice(c: Composite, p: Peer)
    ensures Demoted(Demoted(c, p), p) == Demoted(c, p)
  {
  }

  lemma AdmittedTwice(c: Composite, advertised: set<Topic>, p: Peer)
    ensures Admitted(Admitted(c, advertised, p), advertised, p) == Admitted(c, advertised, p)
  {
    hide CoversEvery;
    var a := Admitted(c, advertised, p);
    assert a.same + {p} == a.same || !CoversEvery(advertised, c.slices);
    assert a.broker - {p} == a.broker || !CoversEvery(advertised, c.slices);
  }

  lemma AdmittedSoFar(cfg: Config, ctx: GraftContext, outbound: bool, cs0: Composites, cs: Composites,
                      cs': Composites, advertised: set<Topic>, p: Peer, keys: set<Topic>, t: Topic, k: Topic)
    requires Touched(cs0, cs, advertised, p, keys) && cs' == GraftedWhole(cfg, ctx, outbound, cs, advertised, t, p) && k in cs0
    requires k == t ==> cs' == cs[t := Admitted(cs[t], advertised, p)]
    requires k != t ==> cs[k] == Admitted(cs0[k], advertised, p)
    ensures k in cs' && cs'[k] == Admitted(cs0[k], advertised, p)
  {
    hide Admitted, ViolatesCap;
    AdmittedTwice(cs0[k], advertised, p);
  }

  lemma GraftingStart(cfg: Config, ctx: GraftContext, outbound: bool, p: Peer, cs: Composites, mesh: Mesh)
    ensures Grafting(cfg, ctx, outbound, p, cs, mesh, {}, {}, {})
  {
  }

  /** The ways one topic of a GRAFT goes: seen only, refused, or inserted into a simple mesh. */
  lemma GraftingSees(cfg: Config, ctx: GraftContext, outbound: bool, p: Peer, cs: Composites, mesh: Mesh,
                     seen: set<Topic>, pruned: set<Topic>, bad: set<Topic>, t: Topic)
    requires Grafting(cfg, ctx, outbound, p, cs, mesh, seen, pruned, bad)
    ensures Grafting(cfg, ctx, outbound, p, cs, mesh, seen + {t}, pruned, bad)
    ensures t in cs ==> Grafting(cfg, ctx, outbound, p, cs, mesh, seen + {t}, pruned + {t}, bad)
    ensures t !in cs && t in mesh && p !in mesh[t] && Refuses(cfg, ctx, outbound, t, mesh[t], p) ==>
      Grafting(cfg, ctx, outbound, p, cs, mesh, seen + {t}, pruned + {t}, bad)
    ensures t !in cs && t in mesh && p !in mesh[t] && !Refuses(cfg, ctx, outbound, t, mesh[t], p) ==> t !in pruned
    ensures t !in cs && t in mesh && p !in mesh[t] && !Refuses(cfg, ctx, outbound, t, mesh[t], p) ==>
      Grafting(cfg, ctx, outbound, p, cs, mesh[t := mesh[t] + {p}], seen + {t}, pruned, bad + {t})
  {
    hide Refuses;
  }

  lemma GraftingAdmits(cfg: Config, ctx: GraftContext, outbound: bool, p: Peer, cs: Composites, cs': Composites,
                       mesh: Mesh, mesh': Mesh,
                       seen: set<Topic>, pruned: set<Topic>, bad: set<Topic>, t: Topic, slices: seq<Topic>)
    requires Grafting(cfg, ctx, outbound, p, cs, mesh, seen, pruned, bad) && cs'.Keys == cs.Keys
    requires forall s :: s in slices ==> s in mesh' && p in mesh'[s]
    requires forall s :: s !in slices ==> (s in mesh' <==> s in mesh) && (s in mesh ==> mesh'[s] == mesh[s])
    ensures Grafting(cfg, ctx, outbound, p, cs', mesh', seen + {t}, pruned, bad - SetOf(slices))
  {
    hide Refuses;
  }

  /** One GRAFT of a topic: exact on the topic unless it is a composite, nothing else unowned changes. */
  ghost predicate GraftStep(cfg: Config, ctx: GraftContext, outbound: bool, before: Mesh, after: Mesh, index: Index, keys: set<Topic>,
                            t: Topic, p: Peer, pruned0: set<Topic>, pruned: set<Topic>) {
    && pruned0 <= pruned <= pruned0 + {t}
    && (forall s :: s !in index && (s != t || t in keys) ==> (s in after <==> s in before) && (s in before ==> after[s] == before[s]))
    && (t !in keys && t in before ==>
          && t in after && after[t] == Joined(cfg, ctx, outbound, t, before[t], p)
          && (t in pruned <==> t in pruned0 || (p !in before[t] && Refuses(cfg, ctx, outbound, t, before[t], p))))
  }

  /** The mesh of a simple topic after a GRAFT. */
  ghost function Joined(cfg: Config, ctx: GraftContext, outbound: bool, t: Topic, m: set<Peer>, p: Peer): (r: set<Peer>) {
    if Refuses(cfg, ctx, outbound, t, m, p) then m else m + {p}
  }

  /** Every unowned simple mesh after the given topics were grafted: admitted or refused exactly by the rules. */
  ghost predicate SimpleGrafts(cfg: Config, ctx: GraftContext, outbound: bool, before: Mesh, after: Mesh, index: Index, keys: set<Topic>,
                               topics: set<Topic>, p: Peer, pruned: set<Topic>) {
    forall s :: s in before && s !in index && s !in keys ==>
      && s in after && after[s] == (if s in topics then Joined(cfg, ctx, outbound, s, before[s], p) else before[s])
      && (s in pruned <==> s in topics && p !in before[s] && Refuses(cfg, ctx, outbound, s, before[s], p))
  }

  lemma SimpleGraftsStart(cfg: Config, ctx: GraftContext, outbound: bool, mesh: Mesh, index: Index, keys: set<Topic>, p: Peer)
    ensures SimpleGrafts(cfg, ctx, outbound, mesh, mesh, index, keys, {}, p, {})
  {
  }

  lemma SimpleGraftsStep(cfg: Config, ctx: GraftContext, outbound: bool, a: Mesh, b: Mesh, c: Mesh, index: Index, keys: set<Topic>,
                         seen: set<Topic>, p: Peer, pruned0: set<Topic>, pruned: set<Topic>, t: Topic)
    requires SimpleGrafts(cfg, ctx, outbound, a, b, index, keys, seen, p, pruned0)
    requires GraftStep(cfg, ctx, outbound, b, c, index, keys, t, p, pruned0, pruned)
    ensures SimpleGrafts(cfg, ctx, outbound, a, c, index, keys, seen + {t}, p, pruned)
  {
    hide Refuses;
    if t in a && t !in index && t !in keys {
      assert t in b;
    }
  }

  lemma SimpleGraftsFrame(cfg: Config, ctx: GraftContext, outbound: bool, a: Mesh, b: Mesh, c: Mesh, index: Index, subs: set<Topic>,
                          keys: set<Topic>, seen: set<Topic>, p: Peer, pruned: set<Topic>)
    requires SimpleGrafts(cfg, ctx, outbound, a, b, index, keys, seen, p, pruned) && Frame(b, c, index, subs)
    ensures SimpleGrafts(cfg, ctx, outbound, a, c, index, keys, seen, p, pruned)
  {
    hide Refuses;
  }

  /** What the rules mean for a peer not yet in an unowned mesh. */
  lemma SimpleGraftsExact(cfg: Config, ctx: GraftContext, outbound: bool, before: Mesh, after: Mesh, index: Index, keys: set<Topic>,
                          topics: set<Topic>, p: Peer, pruned: set<Topic>)
    requires SimpleGrafts(cfg, ctx, outbound, before, after, index, keys, topics, p, pruned)
    ensures forall t :: t in topics && t in before && t !in index && t !in keys && p !in before[t] ==>
      && t in after && after[t] == (if t in pruned then before[t] else before[t] + {p})
      && (t in pruned <==>
            || ctx.backoffActive(t) || ctx.belowZero
            || (!outbound && |before[t]| >= cfg.high)
            || (!outbound && cfg.subnetCap > 0 && exists b ::
                  b in ctx.buckets(p) && |set q | q in before[t] && b in ctx.buckets(q)| >= cfg.subnetCap))
  {
    hide Refuses;
    forall t | t in topics && t in before && t !in index && t !in keys && p !in before[t]
      ensures t in after && after[t] == (if t in pruned then before[t] else before[t] + {p})
      ensures t in pruned <==>
        || ctx.backoffActive(t) || ctx.belowZero
        || (!outbound && |before[t]| >= cfg.high)
        || (!outbound && cfg.subnetCap > 0 && exists b ::
              b in ctx.buckets(p) && |set q | q in before[t] && b in ctx.buckets(q)| >= cfg.subnetCap)
    {
      RefusesExactly(cfg, ctx, outbound, t, before[t], p);
    }
  }

  /** A GRAFT is refused during a backoff, for a negative score, and from inbound peers into a full mesh or a full subnet. */
  lemma RefusesExactly(cfg: Config, ctx: GraftContext, outbound: bool, t: Topic, m: set<Peer>, p: Peer)
    ensures Refuses(cfg, ctx, outbound, t, m, p) <==>
      || ctx.backoffActive(t) || ctx.belowZero
      || (!outbound && |m| >= cfg.high)
      || (!outbound && cfg.subnetCap > 0 && exists b ::
            b in ctx.buckets(p) && |set q | q in m && b in ctx.buckets(q)| >= cfg.subnetCap)
  {
    hide ViolatesCap;
    CapExactly(cfg.subnetCap, m, ctx.buckets, p);
  }

  lemma CapExactly(cap: nat, m: set<Peer>, buckets: Buckets, p: Peer)
    ensures ViolatesCap(cap, m, buckets, p) <==>
      cap > 0 && exists b :: b in buckets(p) && |set q | q in m && b in buckets(q)| >= cap
  {
    forall b ensures Count(m, buckets, b) == |set q | q in m && b in buckets(q)| {
      assert InBucket(m, buckets, b) == set q | q in m && b in buckets(q);
    }
  }

  lemma RefusedExactly(cfg: Config, ctx: GraftContext, outbound: bool, cs: Composites, p: Peer)
    ensures forall k :: k in cs && (ctx.backoffActive(k) || ctx.belowZero) ==> Refused(cfg, ctx, outbound, cs, p, k)
  {
    hide ViolatesCap;
  }

  /** Composites that refuse the peer as they stand. */
  ghost predicate Refused(cfg: Config, ctx: GraftContext, outbound: bool, cs: Composites, p: Peer, k: Topic) {
    k in cs && RefusesComposite(cfg, ctx, outbound, k, cs[k].Members(), p)
  }

  lemma WholeKeys(cfg: Config, ctx: GraftContext, outbound: bool, cs: Composites, advertised: set<Topic>, t: Topic, p: Peer)
    ensures GraftedWhole(cfg, ctx, outbound, cs, advertised, t, p).Keys == cs.Keys
  {
    hide RefusesComposite, Admitted;
  }

  lemma RefusedStays(cfg: Config, ctx: GraftContext, outbound: bool, cs0: Composites, cs: Composites, advertised: set<Topic>, t: Topic,
                     p: Peer, k: Topic)
    requires Refused(cfg, ctx, outbound, cs0, p, k) && k in cs && cs[k] == cs0[k]
    ensures Refused(cfg, ctx, outbound, cs, p, k)
    ensures k in GraftedWhole(cfg, ctx, outbound, cs, advertised, t, p)
    ensures GraftedWhole(cfg, ctx, outbound, cs, advertised, t, p)[k] == cs0[k]
  {
    hide RefusesComposite, Admitted;
  }

  /** Only a backoff, a negative score, or for inbound peers a full mesh or subnet, makes the router refuse. */
  predicate Refusable(ctx: GraftContext, outbound: bool, t: Topic) { ctx.backoffActive(t) || ctx.belowZero || !outbound }

  lemma RefusedIsRefusable(cfg: Config, ctx: GraftContext, outbound: bool, t: Topic, m: set<Peer>, p: Peer)
    ensures Refuses(cfg, ctx, outbound, t, m, p) ==> Refusable(ctx, outbound, t)
    ensures RefusesComposite(cfg, ctx, outbound, t, m, p) ==> Refusable(ctx, outbound, t)
  {
    hide ViolatesCap;
  }

  /** After classification the mesh of an accepted topic still holds the peer. */
  lemma AcceptedHolds(cs0: Composites, cs: Composites, index: Index, m1: Mesh, mesh: Mesh, subs: set<Topic>,
                      advertised: set<Topic>, p: Peer, t: Topic)
    requires SameSlices(cs0, cs) && IndexOk(cs, index) && (t in index ==> SliceOk(cs, mesh, subs, t)) && Frame(m1, mesh, index, subs)
    requires t in m1 && p in m1[t]
    requires forall k :: Owns(cs0, k, t) ==> cs[k] == Admitted(cs0[k], advertised, p)
    ensures t in mesh && p in mesh[t]
  {
    hide Owners, CoversEvery;
    if t in index {
      FirstOwner(cs, index, t);
      SameOwns(cs0, cs);
      var k := index[t][0];
      assert Owns(cs0, k, t) && p in cs[k].Members();
      OwnersMember(cs, t, p);
      assert SliceOk(cs, mesh, subs, t);
    }
  }

  lemma InsertFrame(mesh: Mesh, index: Index, subs: set<Topic>, t: Topic, p: Peer)
    requires t in mesh
    ensures GraftFrame(mesh, mesh[t := mesh[t] + {p}], index, subs, p)
  {
  }

  lemma GraftingEnd(cfg: Config, ctx: GraftContext, outbound: bool, p: Peer, cs: Composites, mesh: Mesh,
                    seen: set<Topic>, pruned: set<Topic>, bad: set<Topic>)
    requires Grafting(cfg, ctx, outbound, p, cs, mesh, seen, pruned, bad)
    ensures bad <= seen - pruned
  {
    hide Refuses;
  }

  lemma RebuiltHolds(cs: Composites, mesh: Mesh, subs: set<Topic>, k: Topic, s: Topic, p: Peer)
    requires k in cs && p in cs[k].Members()
    ensures s in cs[k].slices ==> p in RebuiltSlice(cs, mesh, subs, s)
  {
    hide Owners;
    OwnersMember(cs, s, p);
    if s in cs[k].slices {
      assert Owns(cs, k, s);
    }
  }

  lemma SlicesIndexed(cs: Composites, index: Index, k: Topic)
    requires IndexOk(cs, index) && k in cs
    ensures forall s :: s in cs[k].slices ==> s in index
  {
    forall s | s in cs[k].slices ensures s in index {
      assert Owns(cs, k, s);
    }
  }

  /** The same composites with the same slices. */
  ghost predicate SameSlices(a: Composites, b: Composites) {
    a.Keys == b.Keys && forall k :: k in a ==> a[k].slices == b[k].slices
  }

  lemma SameOwns(a: Composites, b: Composites)
    requires SameSlices(a, b)
    ensures forall k, s :: Owns(a, k, s) <==> Owns(b, k, s)
  {
  }

  lemma NoSlices(cs: Composites)
    ensures SlicesOf(cs, {}) == {}
  {
  }

  lemma MoreSlices(a: Composites, b: Composites, keys: set<Topic>, k: Topic)
    requires SameSlices(a, b) && k in a
    ensures SlicesOf(b, keys + {k}) == SlicesOf(a, keys) + SetOf(a[k].slices)
  {
    hide SlicesOf;
    SameOwns(a, b);
    forall s ensures s in SlicesOf(b, keys + {k}) <==> s in SlicesOf(a, keys) + SetOf(a[k].slices) {
      SlicesOfMember(b, keys + {k}, s);
      SlicesOfMember(a, keys, s);
      if s in a[k].slices {
        assert k in keys + {k} && Owns(b, k, s);
      }
    }
  }

  lemma UnionSlices(a: Composites, b: Composites, x: set<Topic>, y: set<Topic>)
    requires SameSlices(a, b)
    ensures SlicesOf(b, x + y) == SlicesOf(a, x) + SlicesOf(b, y)
  {
    hide SlicesOf;
    SameOwns(a, b);
    forall s ensures s in SlicesOf(b, x + y) <==> s in SlicesOf(a, x) + SlicesOf(b, y) {
      SlicesOfMember(b, x + y, s);
      SlicesOfMember(a, x, s);
      SlicesOfMember(b, y, s);
    }
  }

  lemma FewerSlices(cs: Composites, keys: set<Topic>, k: Topic)
    requires k in keys && k in cs
    ensures SlicesOf(cs, keys) - SetOf(cs[k].slices) <= SlicesOf(cs, keys - {k})
    ensures SlicesOf(cs, keys - {k}) <= SlicesOf(cs, keys)
  {
    hide SlicesOf;
    forall s ensures s in SlicesOf(cs, keys) && s !in cs[k].slices ==> s in SlicesOf(cs, keys - {k})
      ensures s in SlicesOf(cs, keys - {k}) ==> s in SlicesOf(cs, keys)
    {
      SlicesOfMember(cs, keys, s);
      SlicesOfMember(cs, keys - {k}, s);
    }
  }

  /** The composites so far: those touched have admitted the peer, the others are as they were. */
  ghost predicate Classifying(cs0: Composites, cs: Composites, advertised: set<Topic>, p: Peer, touched: set<Topic>) {
    && SameSlices(cs0, cs) && touched <= cs.Keys
    && forall k :: k in cs ==> cs[k] == if k in touched then Admitted(cs0[k], advertised, p) else cs0[k]
  }

  lemma NothingTouched(cs: Composites, advertised: set<Topic>, p: Peer)
    ensures Classifying(cs, cs, advertised, p, {}) && OwnersOfAll(cs, {}, {})
  {
    hide Admitted;
  }

  lemma ClassifyingSlices(cs0: Composites, cs: Composites, advertised: set<Topic>, p: Peer, touched: set<Topic>)
    requires Classifying(cs0, cs, advertised, p, touched)
    ensures SameSlices(cs0, cs) && touched <= cs.Keys
  {
    hide Admitted;
  }

  lemma ClassifyingMore(cs0: Composites, cs: Composites, cs': Composites, advertised: set<Topic>, p: Peer,
                        touched: set<Topic>, keys: seq<Topic>)
    requires Classifying(cs0, cs, advertised, p, touched) && SameSlices(cs, cs') && SetOf(keys) <= cs.Keys
    requires forall k :: k in cs' ==> cs'[k] == if k in keys then Admitted(cs[k], advertised, p) else cs[k]
    ensures Classifying(cs0, cs', advertised, p, touched + SetOf(keys))
  {
    hide Admitted;
    forall k | k in cs' ensures cs'[k] == if k in touched + SetOf(keys) then Admitted(cs0[k], advertised, p) else cs0[k] {
      AdmittedTwice(cs0[k], advertised, p);
    }
  }

  lemma ClassifyingEnd(cs0: Composites, cs: Composites, advertised: set<Topic>, p: Peer, touched: set<Topic>, slices: set<Topic>)
    requires Classifying(cs0, cs, advertised, p, touched) && OwnersOfAll(cs0, slices, touched)
    ensures forall k :: k in cs ==> cs[k] == cs0[k] || cs[k] == Admitted(cs0[k], advertised, p)
    ensures forall k, s :: k in cs && s in slices && Owns(cs0, k, s) ==> cs[k] == Admitted(cs0[k], advertised, p)
    ensures forall k :: k in cs && cs[k] != cs0[k] ==> exists s :: s in slices && Owns(cs0, k, s)
  {
    hide Admitted;
  }

  /** keys are the composites that own one of the slices. */
  ghost predicate OwnersOfAll(cs: Composites, slices: set<Topic>, keys: set<Topic>) {
    forall k :: k in keys <==> exists s :: s in slices && Owns(cs, k, s)
  }

  lemma OwnersMore(cs0: Composites, cs: Composites, index: Index, slices: set<Topic>, keys: set<Topic>, t: Topic)
    requires OwnersOfAll(cs0, slices, keys) && SameSlices(cs0, cs) && IndexOk(cs, index) && t in index
    ensures OwnersOfAll(cs0, slices + {t}, keys + SetOf(index[t]))
  {
    SameOwns(cs0, cs);
    OwnersLive(cs, index, t);
    forall k ensures k in keys + SetOf(index[t]) <==> exists s :: s in slices + {t} && Owns(cs0, k, s) {
      if k in index[t] {
        assert t in slices + {t} && Owns(cs0, k, t);
      }
      if k in keys {
        var s :| s in slices && Owns(cs0, k, s);
        assert s in slices + {t} && Owns(cs0, k, s);
      }
    }
  }

  lemma OwnersNoMore(cs0: Composites, slices: set<Topic>, more: set<Topic>, keys: set<Topic>, t: Topic)
    requires OwnersOfAll(cs0, slices, keys) && slices <= more <= slices + {t} && (t in more ==> t in slices || forall k :: !Owns(cs0, k, t))
    ensures OwnersOfAll(cs0, more, keys)
  {
    forall k ensures k in keys <==> exists s :: s in more && Owns(cs0, k, s) {
      if k in keys {
        var s :| s in slices && Owns(cs0, k, s);
        assert s in more && Owns(cs0, k, s);
      }
    }
  }

  lemma SplitTopics(topics: seq<Topic>, j: nat, pruned: set<Topic>)
    requires j < |topics|
    ensures SetOf(topics[j..]) - pruned == (SetOf(topics[j + 1..]) - pruned) + if topics[j] in pruned then {} else {topics[j]}
    ensures SetOf(topics[..j + 1]) - pruned == (SetOf(topics[..j]) - pruned) + if topics[j] in pruned then {} else {topics[j]}
  {
    assert topics[j..] == [topics[j]] + topics[j + 1..] && topics[..j + 1] == topics[..j] + [topics[j]];
  }

  lemma SplitRest(topics: seq<Topic>, j: nat, pruned: set<Topic>, dirty: set<Topic>)
    requires j < |topics| && topics[j] !in pruned
    ensures SetOf(topics[j..]) - pruned + dirty == (SetOf(topics[j + 1..]) - pruned + dirty) + {topics[j]}
  {
    SplitTopics(topics, j, pruned);
  }

  lemma OwnersLive(cs: Composites, index: Index, t: Topic)
    requires IndexOk(cs, index) && t in index
    ensures forall k :: k in index[t] <==> Owns(cs, k, t)
    ensures index[t] != []
  {
  }

  lemma TouchedSlice(cs: Composites, index: Index, t: Topic, keys: set<Topic>)
    requires IndexOk(cs, index) && t in index && SetOf(index[t]) <= keys
    ensures t in SlicesOf(cs, keys)
  {
    hide SlicesOf;
    FirstOwner(cs, index, t);
    SlicesOfMember(cs, keys, t);
    assert index[t][0] in SetOf(index[t]);
  }

  lemma NotOwned(cs0: Composites, cs: Composites, index: Index, t: Topic)
    requires IndexOk(cs, index) && SameSlices(cs0, cs)
    ensures t !in index ==> forall k :: !Owns(cs0, k, t)
  {
    SameOwns(cs0, cs);
  }

  ghost function MeshUnion(mesh: Mesh, slices: seq<Topic>): (r: set<Peer>)
  {
    set s, p | s in slices && s in mesh && p in mesh[s] :: p
  }

  lemma MeshUnionMore(mesh: Mesh, slices: seq<Topic>, j: nat)
    requires j < |slices|
    ensures MeshUnion(mesh, slices[..j + 1]) == MeshUnion(mesh, slices[..j]) + if slices[j] in mesh then mesh[slices[j]] else {}
  {
    hide MeshUnion;
    assert slices[..j + 1] == slices[..j] + [slices[j]];
    forall p ensures p in MeshUnion(mesh, slices[..j + 1]) <==>
      p in MeshUnion(mesh, slices[..j]) || (slices[j] in mesh && p in mesh[slices[j]])
    {
      MeshUnionMember(mesh, slices[..j + 1], p);
      MeshUnionMember(mesh, slices[..j], p);
    }
  }

  lemma MeshUnionMember(mesh: Mesh, slices: seq<Topic>, p: Peer)
    ensures p in MeshUnion(mesh, slices) <==> exists s :: s in slices && s in mesh && p in mesh[s]
  {
    if exists s :: s in slices && s in mesh && p in mesh[s] {
      var s :| s in slices && s in mesh && p in mesh[s];
      assert p in MeshUnion(mesh, slices);
    }
  }

  lemma MembersOfStep(cs: Composites, keys: seq<Topic>, i: nat)
    requires i <= |keys|
    ensures i == 0 ==> MembersOf(cs, keys[..i]) == {}
    ensures i > 0 ==> MembersOf(cs, keys[..i]) == MembersOf(cs, keys[..i - 1]) + if keys[i - 1] in cs then cs[keys[i - 1]].Members() else {}
  {
    if i > 0 {
      assert keys[..i][..i - 1] == keys[..i - 1];
    }
  }

  lemma NoneRegistered(index: Index, k: Topic)
    ensures Registered(index, [], k) == index
  {
  }

  lemma RegisterOne(index: Index, slices: seq<Topic>, j: nat, k: Topic)
    requires j < |slices|
    ensures var before := Registered(index, slices[..j], k);
      Registered(index, slices[..j + 1], k) == before[slices[j] := OwnersOf(before, slices[j]) + [k]]
  {
    assert slices[..j + 1][..j] == slices[..j];
  }

  lemma NoneUnregistered(index: Index, k: Topic)
    ensures Unregistered(index, [], k) == index
  {
  }

  lemma UnregisterOne(index: Index, slices: seq<Topic>, j: nat, k: Topic)
    requires j < |slices|
    ensures Unregistered(index, slices[..j + 1], k) == Unlisted(Unregistered(index, slices[..j], k), slices[j], k)
  {
    assert slices[..j + 1][..j] == slices[..j];
  }

  lemma RemoveUnowned(cs: Composites, index: Index, mesh: Mesh, subs: set<Topic>, bad: set<Topic>, s: Topic)
    requires OkExcept(cs, index, mesh, subs, bad) && s !in index
    ensures OkExcept(cs, index, mesh - {s}, subs, bad)
  {
    hide Owners;
    forall t | t in index && t !in bad ensures SliceOk(cs, mesh - {s}, subs, t) {
      assert SliceOk(cs, mesh, subs, t);
    }
  }

  lemma FirstOwner(cs: Composites, index: Index, s: Topic)
    requires IndexOk(cs, index) && s in index
    ensures index[s] != [] && Owns(cs, index[s][0], s)
  {
    assert index[s][0] in index[s];
  }

  lemma SomeOwner(cs: Composites, index: Index, s: Topic)
    requires IndexOk(cs, index) && s in index
    ensures exists k :: Owns(cs, k, s)
  {
    FirstOwner(cs, index, s);
  }

  lemma WellFormedDisjoint(cs: Composites, k: Topic)
    requires WellFormed(cs) && k in cs
    ensures cs[k].same !! cs[k].broker && cs[k].slices == Slices(k)
  {
  }

  lemma MaintainedShape(cfg: Config, pool: Pool, connected: set<Peer>, c: Composite, r: Composite)
    requires Maintained(cfg, pool, connected, c, r)
    ensures r.slices == c.slices && r.same !! r.broker
  {
    hide WithinCap, Eligible, Evicted, Trimmed, Grown;
  }

  // ----- disturbances -----

  lemma DisturbedOwned(cs: Composites, index: Index, mesh: Mesh, subs: set<Topic>)
    ensures Disturbance(cs, index, mesh, subs) <= index.Keys
  {
    hide SliceOk;
  }

  lemma UndisturbedOk(cs: Composites, index: Index, mesh: Mesh, subs: set<Topic>, bad: set<Topic>, t: Topic)
    requires OkExcept(cs, index, mesh, subs, bad) && t !in bad
    ensures t in index ==> SliceOk(cs, mesh, subs, t)
  {
    hide SliceOk;
  }

  /** Replacing a composite and rebuilding its slices puts these in order and leaves the others as they were. */
  lemma ReplacedDisturbance(cs: Composites, index: Index, mesh: Mesh, subs: set<Topic>, k: Topic, c: Composite)
    requires k in cs && c.slices == cs[k].slices
    ensures var cs' := cs[k := c];
      Disturbance(cs', index, Rebuilt(cs', mesh, subs, c.slices), subs) == Disturbance(cs, index, mesh, subs) - SetOf(c.slices)
  {
    hide Owners, Rebuilt;
    var cs' := cs[k := c];
    var m := Rebuilt(cs', mesh, subs, c.slices);
    forall s ensures s in c.slices ==> SliceOk(cs', m, subs, s)
      ensures s !in c.slices ==> (SliceOk(cs', m, subs, s) <==> SliceOk(cs, mesh, subs, s))
    {
      RebuiltAt(cs', mesh, subs, c.slices, s);
      if s !in c.slices {
        OwnersElsewhere(cs, k, c, s);
      }
    }
  }

  /** The composites that differ. */
  ghost function Changed(cs0: Composites, cs: Composites): (r: set<Topic>)
  {
    set k | k in cs && k in cs0 && cs[k] != cs0[k]
  }

  lemma NothingChanged(cs: Composites)
    ensures Changed(cs, cs) == {} && SlicesOf(cs, Changed(cs, cs)) == {}
  {
    NoSlices(cs);
  }

  lemma OneMoreChanged(cs0: Composites, cs: Composites, k: Topic, c: Composite)
    requires SameSlices(cs0, cs) && k in cs && cs[k] == cs0[k] && c != cs[k] && c.slices == cs[k].slices
    ensures SameSlices(cs0, cs[k := c])
    ensures SlicesOf(cs[k := c], Changed(cs0, cs[k := c])) == SlicesOf(cs, Changed(cs0, cs)) + SetOf(c.slices)
  {
    hide SlicesOf;
    assert Changed(cs0, cs[k := c]) == Changed(cs0, cs) + {k};
    MoreSlices(cs, cs[k := c], Changed(cs0, cs), k);
  }

  /** Every accepted owned slice has been rebuilt. */
  lemma AcceptedRebuilt(cs0: Composites, cs: Composites, index: Index, mesh: Mesh, subs: set<Topic>, accepted: set<Topic>,
                        touched: set<Topic>, dirty: set<Topic>)
    requires SameSlices(cs0, cs) && IndexOk(cs, index) && OwnersOfAll(cs0, accepted, touched)
    requires OkExcept(cs, index, mesh, subs, dirty - SlicesOf(cs, touched))
    ensures OkExcept(cs, index, mesh, subs, dirty - accepted)
  {
    hide OkExcept, SlicesOf, IndexOk;
    SameOwns(cs0, cs);
    forall s | s in accepted && s in index ensures s in SlicesOf(cs, touched) {
      SomeOwner(cs, index, s);
      var k :| Owns(cs, k, s);
      assert Owns(cs0, k, s);
      SlicesOfMember(cs, touched, s);
    }
    Forgives(cs, index, mesh, subs, dirty - SlicesOf(cs, touched), dirty - accepted);
  }

  /** A simple subscription more only relaxes what a slice mesh must be. */
  lemma DualDisturbance(cs: Composites, index: Index, mesh: Mesh, subs: set<Topic>, t: Topic)
    ensures Disturbance(cs, index, mesh, subs + {t}) <= Disturbance(cs, index, mesh, subs)
  {
    hide Owners;
  }

  /** A mesh where there was none disturbs nothing further. */
  lemma FreshMesh(cs: Composites, index: Index, mesh: Mesh, subs: set<Topic>, t: Topic, chosen: set<Peer>)
    requires t !in mesh
    ensures Disturbance(cs, index, mesh[t := chosen], subs) <= Disturbance(cs, index, mesh, subs)
  {
    hide Owners;
  }

  /** A simple subscription less matters to that slice only, and takes its mesh away. */
  lemma SimpleDisturbance(cs: Composites, index: Index, mesh: Mesh, subs: set<Topic>, t: Topic)
    ensures Disturbance(cs, index, mesh, subs - {t}) <= Disturbance(cs, index, mesh, subs) + {t}
    ensures Disturbance(cs, index, mesh - {t}, subs - {t}) == Disturbance(cs, index, mesh, subs) + index.Keys * {t}
  {
    hide Owners;
    forall s | s != t ensures SliceOk(cs, mesh, subs - {t}, s) <==> SliceOk(cs, mesh, subs, s)
      ensures SliceOk(cs, mesh - {t}, subs - {t}, s) <==> SliceOk(cs, mesh, subs, s)
    {
    }
  }

  // ----- subscription messages -----

  /** The meshes after the insertions of a subscription message. */
  ghost function Taken(mesh: Mesh, low: nat, welcome: Topic -> bool, list: seq<Subscription>, p: Peer): (r: Mesh)
  {
    map t | t in mesh :: if Takes(mesh, low, welcome, list, t) then mesh[t] + {p} else mesh[t]
  }

  lemma TakenNone(mesh: Mesh, low: nat, welcome: Topic -> bool, p: Peer)
    ensures Taken(mesh, low, welcome, [], p) == mesh
  {
  }

  lemma {:induction false} TakenOne(mesh: Mesh, low: nat, welcome: Topic -> bool, list: seq<Subscription>, p: Peer, e: Subscription)
    ensures var m := Taken(mesh, low, welcome, list, p);
      Taken(mesh, low, welcome, list + [e], p) ==
        if e.Subscribe? && welcome(e.topic) && e.topic in m && |m[e.topic]| < low then m[e.topic := m[e.topic] + {p}] else m
  {
    hide Takes;
    var m, m' := Taken(mesh, low, welcome, list, p), Taken(mesh, low, welcome, list + [e], p);
    forall t | t in mesh ensures Takes(mesh, low, welcome, list + [e], t) <==>
      Takes(mesh, low, welcome, list, t) || (e == Subscribe(t) && welcome(t) && |mesh[t]| < low)
    {
      TakesMore(mesh, low, welcome, list, e, t);
    }
    if e.Subscribe? && e.topic in mesh && welcome(e.topic) {
      assert Takes(mesh, low, welcome, list, e.topic) ==> m[e.topic] + {p} == m[e.topic] && |mesh[e.topic]| < low by {
        TakesMore(mesh, low, welcome, list, e, e.topic);
      }
    }
  }

  lemma {:induction false} TakesMore(mesh: Mesh, low: nat, welcome: Topic -> bool, list: seq<Subscription>, e: Subscription, t: Topic)
    requires t in mesh
    ensures Takes(mesh, low, welcome, list + [e], t) <==>
      Takes(mesh, low, welcome, list, t) || (e == Subscribe(t) && welcome(t) && |mesh[t]| < low)
    ensures Takes(mesh, low, welcome, list, t) ==> |mesh[t]| < low
  {
  }

  lemma {:induction false} TakenThenLeft(mesh: Mesh, low: nat, welcome: Topic -> bool, list: seq<Subscription>, p: Peer, left: seq<Topic>)
    requires forall t :: t in left <==> Unsubscribe(t) in list
    ensures Unmeshed(Taken(mesh, low, welcome, list, p), SetOf(left), p) == MeshesAfter(mesh, low, welcome, list, p)
  {
    hide Takes;
    var a, b := Unmeshed(Taken(mesh, low, welcome, list, p), SetOf(left), p), MeshesAfter(mesh, low, welcome, list, p);
    forall t | t in mesh ensures a[t] == b[t] {
      assert t in SetOf(left) <==> Unsubscribe(t) in list;
    }
  }

  lemma UnmeshedNone(mesh: Mesh, p: Peer)
    ensures Unmeshed(mesh, {}, p) == mesh
  {
  }

  lemma UnmeshedOne(mesh: Mesh, topics: set<Topic>, p: Peer, t: Topic)
    ensures var m := Unmeshed(mesh, topics, p);
      Unmeshed(mesh, topics + {t}, p) == if t in m then m[t := m[t] - {p}] else m
  {
    var m := Unmeshed(mesh, topics, p);
    var a, b := Unmeshed(mesh, topics + {t}, p), if t in m then m[t := m[t] - {p}] else m;
    forall s | s in mesh ensures s in b && a[s] == b[s] {
      if s == t {
        assert m[t] - {p} == mesh[t] - {p};
      }
    }
    assert a.Keys == b.Keys;
  }

  /** The mesh edits of a message disturb only slices that it names. */
  lemma {:induction false} NamedDisturbance(cs: Composites, index: Index, mesh: Mesh, subs: set<Topic>, low: nat, welcome: Topic -> bool,
                         list: seq<Subscription>, p: Peer)
    ensures forall s :: s in Disturbance(cs, index, MeshesAfter(mesh, low, welcome, list, p), subs) ==>
      s in Disturbance(cs, index, mesh, subs) || Subscribe(s) in list || Unsubscribe(s) in list
  {
    hide Owners, Takes;
    var after := MeshesAfter(mesh, low, welcome, list, p);
    forall s | s in index && SliceOk(cs, mesh, subs, s) && Subscribe(s) !in list && Unsubscribe(s) !in list
      ensures SliceOk(cs, after, subs, s)
    {
      UnnamedUndisturbed(mesh, low, welcome, list, p, s);
      assert after[s] == mesh[s];
    }
  }

  // ----- disconnects -----

  /** The composites with the peer taken out of all but some. */
  ghost predicate Forgetting(cs0: Composites, cs: Composites, keys: set<Topic>, p: Peer) {
    cs.Keys == cs0.Keys && forall k :: k in cs ==>
      cs[k] == if k in keys then cs0[k] else cs0[k].(same := cs0[k].same - {p}, broker := cs0[k].broker - {p})
  }

  lemma ForgottenStart(cs: Composites, p: Peer)
    ensures Forgetting(cs, cs, cs.Keys, p)
  {
  }

  lemma ForgettingStep(cs0: Composites, cs: Composites, keys: set<Topic>, p: Peer, k: Topic)
    requires Forgetting(cs0, cs, keys, p) && k in keys && k in cs0
    ensures k in cs
    ensures Forgetting(cs0, cs[k := cs[k].(same := cs[k].same - {p}, broker := cs[k].broker - {p})], keys - {k}, p)
  {
  }

  lemma ForgottenAll(cs0: Composites, cs: Composites, p: Peer)
    requires Forgetting(cs0, cs, {}, p)
    ensures cs == Forgotten(cs0, p)
  {
  }

  lemma DisconnectedSlice(cs: Composites, index: Index, mesh: Mesh, subs: set<Topic>, topics: set<Topic>, p: Peer, s: Topic)
    requires s in index && s !in Disturbance(cs, index, mesh, subs)
    ensures s in Disturbance(Forgotten(cs, p), index, Unmeshed(mesh, topics, p), subs) <==>
      s !in subs && s !in topics && s in mesh && p in mesh[s]
  {
    hide Forgotten, Unmeshed, Owners;
    assert SliceOk(cs, mesh, subs, s);
    DisconnectDisturbs(cs, mesh, subs, topics, p, s);
  }

  // ----- runs -----

  lemma NoOperations(start: set<Topic>)
    ensures SinceHeartbeat(start, [], []) == start
  {
  }

  lemma {:induction false} MoreOperations(start: set<Topic>, ops: seq<Operation>, added: seq<set<Topic>>, i: nat,
                                          before: set<Topic>, after: set<Topic>)
    requires i < |ops| && |added| == i && before <= SinceHeartbeat(start, ops[..i], added) && (ops[i].Heartbeat? ==> after == {})
    ensures after <= SinceHeartbeat(start, ops[..i + 1], added + [after - before])
  {
    assert ops[..i + 1][..i] == ops[..i] && (added + [after - before])[..i] == added;
  }
}
