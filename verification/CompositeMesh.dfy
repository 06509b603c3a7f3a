/**
 The state behind composite subscriptions of behaviour.rs: composites, the reverse index from slices to composites,
 and the slice meshes derived from them.
 */
module CompositeMesh {
  import opened Network
  import opened Bitmask

  /** A composite mesh entry: peers covering every slice, and peers covering some. */
  datatype Composite = Composite(slices: seq<Topic>, same: set<Peer>, broker: set<Peer>) {
    function Members(): (s: set<Peer>) { same + broker }
  }

  type Composites = map<Topic, Composite>
  type Index = map<Topic, seq<Topic>>
  type Mesh = map<Topic, set<Peer>>

  // ----- the invariants -----

  ghost predicate WellFormed(cs: Composites) {
    forall k :: k in cs ==> cs[k].slices == Slices(k) && cs[k].same !! cs[k].broker
  }

  /** Composite k is live and s is one of its slices. */
  predicate Owns(cs: Composites, k: Topic, s: Topic) { k in cs && s in cs[k].slices }

  /** The reverse index lists k under s exactly once if k owns s and not otherwise; unowned slices are not in it. */
  ghost predicate IndexOk(cs: Composites, index: Index) {
    && (forall s :: s in index ==> Distinct(index[s]) && index[s] != [])
    && (forall s, k :: s in index ==> (k in index[s] <==> Owns(cs, k, s)))
    && (forall s, k :: Owns(cs, k, s) ==> s in index)
  }

  /** The members of all composites that own s. */
  ghost function Owners(cs: Composites, s: Topic): (r: set<Peer>)
  {
    set k, p | k in cs && p in cs[k].Members() && s in cs[k].slices :: p
  }

  lemma OwnersMember(cs: Composites, s: Topic, p: Peer)
    ensures p in Owners(cs, s) <==> exists k :: Owns(cs, k, s) && p in cs[k].Members()
  {
    if exists k :: Owns(cs, k, s) && p in cs[k].Members() {
      var k :| Owns(cs, k, s) && p in cs[k].Members();
      assert k in cs && p in cs[k].Members() && s in cs[k].slices;
    }
    if p in Owners(cs, s) {
      var k :| k in cs && p in cs[k].Members() && s in cs[k].slices;
      assert Owns(cs, k, s);
    }
  }

  /** The mesh of slice s holds its owners' members, and nobody else unless s is also a simple subscription. */
  ghost predicate SliceOk(cs: Composites, mesh: Mesh, subs: set<Topic>, s: Topic) {
    s in mesh && Owners(cs, s) <= mesh[s] && (s in subs || mesh[s] == Owners(cs, s))
  }

  /** Every owned slice outside bad is in order. */
  ghost predicate OkExcept(cs: Composites, index: Index, mesh: Mesh, subs: set<Topic>, bad: set<Topic>) {
    forall s :: s in index && s !in bad ==> SliceOk(cs, mesh, subs, s)
  }

  /** The owned slices that are not in order. */
  ghost function Disturbance(cs: Composites, index: Index, mesh: Mesh, subs: set<Topic>): (r: set<Topic>)
  {
    set s | s in index && !SliceOk(cs, mesh, subs, s)
  }

  lemma DisturbedWithin(cs: Composites, index: Index, mesh: Mesh, subs: set<Topic>, bad: set<Topic>)
    ensures OkExcept(cs, index, mesh, subs, bad) <==> Disturbance(cs, index, mesh, subs) <= bad
    ensures OkExcept(cs, index, mesh, subs, Disturbance(cs, index, mesh, subs))
  {
    hide SliceOk;
  }

  // ----- steps that disturb -----

  /** Replacing composite k, slices kept, disturbs at most its slices. */
  lemma ChangeDisturbs(cs: Composites, index: Index, mesh: Mesh, subs: set<Topic>, bad: set<Topic>, k: Topic, c: Composite)
    requires OkExcept(cs, index, mesh, subs, bad) && k in cs && c.slices == cs[k].slices
    ensures OkExcept(cs[k := c], index, mesh, subs, bad + SetOf(cs[k].slices))
  {
    hide Owners;
    forall s | s in index && s !in bad && s !in cs[k].slices ensures SliceOk(cs[k := c], mesh, subs, s) {
      assert SliceOk(cs, mesh, subs, s);
      OwnersElsewhere(cs, k, c, s);
    }
  }

  function SetOf(s: seq<Topic>): (r: set<Topic>) { set t | t in s }

  lemma OwnersElsewhere(cs: Composites, k: Topic, c: Composite, s: Topic)
    requires (k in cs ==> s !in cs[k].slices) && s !in c.slices
    ensures Owners(cs[k := c], s) == Owners(cs, s)
  {
    var cs' := cs[k := c];
    forall p ensures p in Owners(cs', s) <==> p in Owners(cs, s) {
      OwnersMember(cs, s, p);
      OwnersMember(cs', s, p);
      if exists j :: Owns(cs, j, s) && p in cs[j].Members() {
        var j :| Owns(cs, j, s) && p in cs[j].Members();
        assert Owns(cs', j, s);
      }
      if exists j :: Owns(cs', j, s) && p in cs'[j].Members() {
        var j :| Owns(cs', j, s) && p in cs'[j].Members();
        assert Owns(cs, j, s);
      }
    }
  }

  lemma ChangeKeepsStructure(cs: Composites, index: Index, k: Topic, c: Composite)
    requires WellFormed(cs) && IndexOk(cs, index) && k in cs && c.slices == cs[k].slices && c.same !! c.broker
    ensures WellFormed(cs[k := c]) && IndexOk(cs[k := c], index)
  {
    hide Distinct;
    var cs' := cs[k := c];
    forall s, j ensures Owns(cs', j, s) <==> Owns(cs, j, s) {
    }
  }

  /** Adding one peer to one mesh disturbs at most that slice. */
  lemma InsertDisturbs(cs: Composites, index: Index, mesh: Mesh, subs: set<Topic>, bad: set<Topic>, t: Topic, peers: set<Peer>)
    requires OkExcept(cs, index, mesh, subs, bad)
    ensures OkExcept(cs, index, mesh[t := peers], subs, bad + {t})
  {
    hide Owners;
    forall s | s in index && s !in bad && s != t ensures SliceOk(cs, mesh[t := peers], subs, s) {
      assert SliceOk(cs, mesh, subs, s);
    }
  }

  /** What is not owned does not matter. */
  lemma Forgives(cs: Composites, index: Index, mesh: Mesh, subs: set<Topic>, bad: set<Topic>, less: set<Topic>)
    requires OkExcept(cs, index, mesh, subs, bad) && forall s :: s in bad && s !in less ==> s !in index
    ensures OkExcept(cs, index, mesh, subs, less)
  {
    hide SliceOk;
  }

  // ----- what peers do to the meshes -----

  /** What a SUBSCRIBE or UNSUBSCRIBE of a peer asks for. */
  datatype Subscription = Subscribe(topic: Topic) | Unsubscribe(topic: Topic)

  /** The topics a peer advertises after its subscriptions, one by one. */
  function Readvertised(advertised: set<Topic>, list: seq<Subscription>): (r: set<Topic>)
  {
    if list == [] then advertised else
      var before := Readvertised(advertised, list[..|list| - 1]);
      match list[|list| - 1]
      case Subscribe(t) => before + {t}
      case Unsubscribe(t) => before - {t}
  }

  /** The mesh of topic t takes the subscribing peer in: some entry asks for it, the peer may join and there is room. */
  predicate Takes(mesh: Mesh, low: nat, welcome: Topic -> bool, list: seq<Subscription>, t: Topic) {
    t in mesh && Subscribe(t) in list && welcome(t) && |mesh[t]| < low
  }

  /** The mesh of t after a message with these subscriptions: first the insertions, then all the removals. */
  function MeshAfter(mesh: Mesh, low: nat, welcome: Topic -> bool, list: seq<Subscription>, p: Peer, t: Topic): (r: set<Peer>)
    requires t in mesh
  {
    (if Takes(mesh, low, welcome, list, t) then mesh[t] + {p} else mesh[t]) - if Unsubscribe(t) in list then {p} else {}
  }

  ghost function MeshesAfter(mesh: Mesh, low: nat, welcome: Topic -> bool, list: seq<Subscription>, p: Peer): (r: Mesh)
  {
    map t | t in mesh :: MeshAfter(mesh, low, welcome, list, p, t)
  }

  /**
   Exactly when the subscriptions of a peer disturb a slice that is in order: an unsubscription does if the peer is a member of an
   owner; a subscription without one does if the peer is taken in anew and the slice is not also a simple subscription.
   */
  lemma {:induction false} SubscriptionsDisturb(cs: Composites, mesh: Mesh, subs: set<Topic>, low: nat, welcome: Topic -> bool,
                             list: seq<Subscription>, p: Peer, s: Topic)
    requires SliceOk(cs, mesh, subs, s)
    ensures SliceOk(cs, MeshesAfter(mesh, low, welcome, list, p), subs, s) <==>
      if Unsubscribe(s) in list then p !in Owners(cs, s)
      else s in subs || p in mesh[s] || !Takes(mesh, low, welcome, list, s)
  {
    hide Owners, Takes;
    var m := MeshesAfter(mesh, low, welcome, list, p);
    assert m[s] == MeshAfter(mesh, low, welcome, list, p, s);
    if p in m[s] && p !in mesh[s] {
      assert m[s] != mesh[s];
    }
  }

  /** And it never disturbs a slice that the message does not name. */
  lemma {:induction false} UnnamedUndisturbed(mesh: Mesh, low: nat, welcome: Topic -> bool, list: seq<Subscription>, p: Peer, s: Topic)
    requires s in mesh && Subscribe(s) !in list && Unsubscribe(s) !in list
    ensures MeshAfter(mesh, low, welcome, list, p, s) == mesh[s]
  {
  }

  /** The composites without a peer. */
  function Forgotten(cs: Composites, p: Peer): (r: Composites)
  {
    map k | k in cs :: cs[k].(same := cs[k].same - {p}, broker := cs[k].broker - {p})
  }

  /** The meshes of the given topics without a peer. */
  function Unmeshed(mesh: Mesh, topics: set<Topic>, p: Peer): (r: Mesh)
  {
    map t | t in mesh :: if t in topics then mesh[t] - {p} else mesh[t]
  }

  lemma ForgottenOwners(cs: Composites, s: Topic, p: Peer)
    ensures Owners(Forgotten(cs, p), s) == Owners(cs, s) - {p}
  {
    hide Owners;
    var cs' := Forgotten(cs, p);
    forall q ensures q in Owners(cs', s) <==> q in Owners(cs, s) && q != p {
      OwnersMember(cs, s, q);
      OwnersMember(cs', s, q);
      if exists k :: Owns(cs, k, s) && q in cs[k].Members() && q != p {
        var k :| Owns(cs, k, s) && q in cs[k].Members() && q != p;
        assert Owns(cs', k, s) && q in cs'[k].Members();
      }
      if exists k :: Owns(cs', k, s) && q in cs'[k].Members() {
        var k :| Owns(cs', k, s) && q in cs'[k].Members();
        assert Owns(cs, k, s) && q in cs[k].Members();
      }
    }
  }

  lemma ForgottenStructure(cs: Composites, index: Index, p: Peer)
    requires WellFormed(cs) && IndexOk(cs, index)
    ensures WellFormed(Forgotten(cs, p)) && IndexOk(Forgotten(cs, p), index)
  {
    hide Distinct;
    var cs' := Forgotten(cs, p);
    forall s, k ensures Owns(cs', k, s) <==> Owns(cs, k, s) {
    }
  }

  /**
   Exactly when a disconnect disturbs a slice that is in order: if the peer is in its mesh by a composite only, through a bitmask
   other than the slice itself.
   */
  lemma DisconnectDisturbs(cs: Composites, mesh: Mesh, subs: set<Topic>, topics: set<Topic>, p: Peer, s: Topic)
    requires SliceOk(cs, mesh, subs, s)
    ensures SliceOk(Forgotten(cs, p), Unmeshed(mesh, topics, p), subs, s) <==> s in subs || s in topics || p !in mesh[s]
  {
    hide Owners;
    ForgottenOwners(cs, s, p);
    assert Unmeshed(mesh, topics, p)[s] == if s in topics then mesh[s] - {p} else mesh[s];
  }

  /** The state of a router with the one composite k, of which p is the one peer. */
  function Alone(k: Topic, p: Peer): (cs: Composites) { map[k := Composite(Slices(k), {p}, {})] }

  function AloneIndex(k: Topic): (index: Index) { map t | t in Slices(k) :: [k] }

  function AloneMesh(k: Topic, p: Peer): (mesh: Mesh) { map t | t in Slices(k) :: {p} }

  lemma AloneOwners(k: Topic, t: Topic, p: Peer)
    requires t in Slices(k)
    ensures Owners(Alone(k, p), t) == {p}
  {
    hide Slices, Owners;
    forall q ensures q in Owners(Alone(k, p), t) <==> q == p {
      OwnersMember(Alone(k, p), t, q);
      assert Owns(Alone(k, p), k, t);
    }
  }

  lemma AloneInOrder(k: Topic, p: Peer)
    ensures WellFormed(Alone(k, p)) && IndexOk(Alone(k, p), AloneIndex(k))
    ensures Disturbance(Alone(k, p), AloneIndex(k), AloneMesh(k, p), {}) == {}
  {
    hide Slices, Owners;
    forall t | t in Slices(k) ensures SliceOk(Alone(k, p), AloneMesh(k, p), {}, t) {
      AloneOwners(k, t, p);
    }
  }

  /**
   The slice meshes are not derived over every run: a full coverer p of the only composite k unsubscribes from a slice s. The state
   was in order; now the mesh of s lacks p, p no longer gets what is sent on s, and p, a member already, is not classified again.
   */
  lemma UnsubscribeLosesMember(k: Topic, s: Topic, p: Peer, low: nat, welcome: Topic -> bool)
    requires !IsZero(k) && s in Slices(k) && s != k
    ensures WellFormed(Alone(k, p)) && IndexOk(Alone(k, p), AloneIndex(k))
    ensures Disturbance(Alone(k, p), AloneIndex(k), AloneMesh(k, p), {}) == {}
    ensures var after := MeshesAfter(AloneMesh(k, p), low, welcome, [Unsubscribe(s)], p);
      Disturbance(Alone(k, p), AloneIndex(k), after, {}) == {s} && p !in Recipients(Alone(k, p), after, s)
    ensures forall advertised, n, backedOff :: Reclassified(Alone(k, p)[k], advertised, n, backedOff, p) == Alone(k, p)[k]
  {
    hide Slices, IsZero, SliceOk, WellFormed, IndexOk, Owners, MeshesAfter;
    AloneInOrder(k, p);
    var cs, mesh := Alone(k, p), AloneMesh(k, p);
    var list := [Unsubscribe(s)];
    var after := MeshesAfter(mesh, low, welcome, list, p);
    forall t | t in Slices(k) ensures SliceOk(cs, after, {}, t) <==> t != s {
      AloneOwners(k, t, p);
      assert t !in Disturbance(cs, AloneIndex(k), mesh, {});
      SubscriptionsDisturb(cs, mesh, {}, low, welcome, list, p, t);
    }
    SliceOfSlice(k, s);
    SliceEmptied(mesh, low, welcome, p, s);
  }

  lemma SliceEmptied(mesh: Mesh, low: nat, welcome: Topic -> bool, p: Peer, s: Topic)
    requires s in mesh
    ensures var after := MeshesAfter(mesh, low, welcome, [Unsubscribe(s)], p); s in after && p !in after[s]
  {
  }

  // ----- rebuilding -----

  /** The mesh that rebuild_slice_meshes gives slice s: members replace, or on a dual-role slice join, what is there. */
  ghost function RebuiltSlice(cs: Composites, mesh: Mesh, subs: set<Topic>, s: Topic): (r: set<Peer>)
  {
    (if s in subs && s in mesh then mesh[s] else {}) + Owners(cs, s)
  }

  ghost function Rebuilt(cs: Composites, mesh: Mesh, subs: set<Topic>, slices: seq<Topic>): (r: Mesh)
  {
    mesh + map s | s in slices :: RebuiltSlice(cs, mesh, subs, s)
  }

  /** Rebuilding puts the slices in order, whatever their meshes held. */
  lemma RebuildRepairs(cs: Composites, index: Index, mesh: Mesh, subs: set<Topic>, bad: set<Topic>, slices: seq<Topic>)
    requires OkExcept(cs, index, mesh, subs, bad)
    ensures OkExcept(cs, index, Rebuilt(cs, mesh, subs, slices), subs, bad - SetOf(slices))
  {
    hide Owners;
    var m := Rebuilt(cs, mesh, subs, slices);
    forall s | s in index && (s !in bad || s in slices) ensures SliceOk(cs, m, subs, s) {
      if s in slices {
        assert m[s] == RebuiltSlice(cs, mesh, subs, s);
      } else {
        assert SliceOk(cs, mesh, subs, s);
      }
    }
  }

  lemma RebuiltNothing(cs: Composites, mesh: Mesh, subs: set<Topic>)
    ensures Rebuilt(cs, mesh, subs, []) == mesh
  {
    hide RebuiltSlice;
  }

  lemma RebuiltAt(cs: Composites, mesh: Mesh, subs: set<Topic>, slices: seq<Topic>, t: Topic)
    ensures t in Rebuilt(cs, mesh, subs, slices) <==> t in mesh || t in slices
    ensures t in slices ==> Rebuilt(cs, mesh, subs, slices)[t] == RebuiltSlice(cs, mesh, subs, t)
    ensures t in mesh && t !in slices ==> Rebuilt(cs, mesh, subs, slices)[t] == mesh[t]
  {
    hide RebuiltSlice;
  }

  lemma RebuiltMore(cs: Composites, mesh: Mesh, subs: set<Topic>, slices: seq<Topic>, j: nat)
    requires j < |slices|
    ensures var m := Rebuilt(cs, mesh, subs, slices[..j]);
      Rebuilt(cs, mesh, subs, slices[..j + 1]) == m[slices[j] := RebuiltSlice(cs, m, subs, slices[j])]
  {
    hide Rebuilt, RebuiltSlice;
    var s := slices[j];
    var m, m' := Rebuilt(cs, mesh, subs, slices[..j]), Rebuilt(cs, mesh, subs, slices[..j + 1]);
    var r := m[s := RebuiltSlice(cs, m, subs, s)];
    assert slices[..j + 1] == slices[..j] + [s];
    RebuiltAt(cs, mesh, subs, slices[..j], s);
    RebuiltTwice(cs, mesh, m, subs, s);
    forall t ensures (t in m' <==> t in r) && (t in r ==> m'[t] == r[t]) {
      RebuiltAt(cs, mesh, subs, slices[..j], t);
      RebuiltAt(cs, mesh, subs, slices[..j + 1], t);
    }
  }

  lemma RebuiltTwice(cs: Composites, mesh: Mesh, m: Mesh, subs: set<Topic>, s: Topic)
    requires s in m ==> m[s] == RebuiltSlice(cs, mesh, subs, s) || (s in mesh && m[s] == mesh[s])
    requires s !in m ==> s !in mesh
    ensures RebuiltSlice(cs, m, subs, s) == RebuiltSlice(cs, mesh, subs, s)
  {
    hide Owners;
  }

  // ----- the reverse index -----

  function OwnersOf(index: Index, s: Topic): (r: seq<Topic>) { if s in index then index[s] else [] }

  /** k appended under every slice of a sequence. */
  function Registered(index: Index, slices: seq<Topic>, k: Topic): (r: Index)
  {
    if slices == [] then index
    else
      var s, before := slices[|slices| - 1], Registered(index, slices[..|slices| - 1], k);
      before[s := OwnersOf(before, s) + [k]]
  }

  lemma {:induction false} RegisteredAt(index: Index, slices: seq<Topic>, k: Topic, s: Topic)
    requires Distinct(slices)
    ensures OwnersOf(Registered(index, slices, k), s) == if s in slices then OwnersOf(index, s) + [k] else OwnersOf(index, s)
    ensures s in Registered(index, slices, k) <==> s in index || s in slices
  {
    if slices != [] {
      var front, last := slices[..|slices| - 1], slices[|slices| - 1];
      RegisteredAt(index, front, k, s);
      assert slices == front + [last];
      LastIsNew(slices);
    }
  }

  lemma LastIsNew(s: seq<Topic>)
    requires s != [] && Distinct(s)
    ensures Distinct(s[..|s| - 1]) && s[|s| - 1] !in s[..|s| - 1]
  {
  }

  lemma AppendOnce(s: seq<Topic>, k: Topic)
    requires Distinct(s) && k !in s
    ensures Distinct(s + [k])
  {
  }

  /** Joining keeps the structure. */
  lemma JoinKeepsStructure(cs: Composites, index: Index, k: Topic, c: Composite)
    requires WellFormed(cs) && IndexOk(cs, index) && k !in cs && c.slices == Slices(k) && c.same !! c.broker
    ensures WellFormed(cs[k := c]) && IndexOk(cs[k := c], Registered(index, c.slices, k))
  {
    hide Registered, Distinct, Slices;
    var cs', index' := cs[k := c], Registered(index, c.slices, k);
    SlicesDistinct(k);
    forall s, j ensures Owns(cs', j, s) <==> Owns(cs, j, s) || (j == k && s in c.slices) {
    }
    forall s ensures s in index' <==> s in index || s in c.slices {
      RegisteredAt(index, c.slices, k, s);
    }
    forall s | s in index' ensures Distinct(index'[s]) && index'[s] != [] && forall j :: j in index'[s] <==> Owns(cs', j, s) {
      JoinSlice(cs, index, k, c, s);
    }
  }

  lemma JoinSlice(cs: Composites, index: Index, k: Topic, c: Composite, s: Topic)
    requires IndexOk(cs, index) && k !in cs && Distinct(c.slices) && s in Registered(index, c.slices, k)
    ensures var o := Registered(index, c.slices, k)[s];
      Distinct(o) && o != [] && forall j :: j in o <==> Owns(cs[k := c], j, s)
  {
    hide Registered;
    RegisteredAt(index, c.slices, k, s);
    var o := Registered(index, c.slices, k)[s];
    assert o == OwnersOf(Registered(index, c.slices, k), s);
    assert k !in OwnersOf(index, s);
    if s in c.slices {
      NothingDistinct();
      AppendOnce(OwnersOf(index, s), k);
    }
    forall j ensures j in OwnersOf(index, s) <==> Owns(cs, j, s) {
    }
  }

  lemma NothingDistinct()
    ensures Distinct([])
  {
  }

  /** keys.retain(|k| k != key). */
  function Without(s: seq<Topic>, k: Topic): (r: seq<Topic>)
  {
    if s == [] then [] else Without(s[..|s| - 1], k) + if s[|s| - 1] == k then [] else [s[|s| - 1]]
  }

  lemma {:induction false} WithoutSpec(s: seq<Topic>, k: Topic)
    ensures forall j :: j in Without(s, k) <==> j in s && j != k
    ensures Distinct(s) ==> Distinct(Without(s, k))
  {
    if s != [] {
      var front, last := s[..|s| - 1], s[|s| - 1];
      WithoutSpec(front, k);
      assert s == front + [last];
      if Distinct(s) {
        LastIsNew(s);
        if last != k {
          AppendOnce(Without(front, k), last);
        }
      }
    }
  }

  /** k taken out from under one slice; an owner list that becomes empty goes. */
  function Unlisted(index: Index, s: Topic, k: Topic): (r: Index)
  {
    if s !in index then index
    else if Without(index[s], k) == [] then index - {s}
    else index[s := Without(index[s], k)]
  }

  function Unregistered(index: Index, slices: seq<Topic>, k: Topic): (r: Index)
  {
    if slices == [] then index else Unlisted(Unregistered(index, slices[..|slices| - 1], k), slices[|slices| - 1], k)
  }

  lemma {:induction false} UnregisteredAt(index: Index, slices: seq<Topic>, k: Topic, s: Topic)
    requires forall t :: t in index ==> index[t] != []
    ensures OwnersOf(Unregistered(index, slices, k), s) == if s in slices then Without(OwnersOf(index, s), k) else OwnersOf(index, s)
    ensures s in Unregistered(index, slices, k) <==> OwnersOf(Unregistered(index, slices, k), s) != []
  {
    hide Without;
    if slices != [] {
      var front, last := slices[..|slices| - 1], slices[|slices| - 1];
      UnregisteredAt(index, front, k, s);
      assert slices == front + [last];
      WithoutTwice(OwnersOf(index, s), k);
      NothingWithout(k);
    }
  }

  lemma NothingWithout(k: Topic)
    ensures Without([], k) == []
  {
  }

  lemma {:induction false} WithoutTwice(s: seq<Topic>, k: Topic)
    ensures Without(Without(s, k), k) == Without(s, k)
  {
    if s != [] {
      var front, last := s[..|s| - 1], s[|s| - 1];
      WithoutTwice(front, k);
      if last != k {
        var w := Without(s, k);
        assert w[..|w| - 1] == Without(front, k);
      } else {
        assert Without(s, k) == Without(front, k);
      }
    }
  }

  /** Leaving keeps the structure and disturbs at most the slices of what is left. */
  lemma LeaveKeepsStructure(cs: Composites, index: Index, k: Topic)
    requires WellFormed(cs) && IndexOk(cs, index) && k in cs
    ensures WellFormed(cs - {k}) && IndexOk(cs - {k}, Unregistered(index, cs[k].slices, k))
  {
    hide Unregistered, Distinct, Slices, Without;
    var cs', slices, index' := cs - {k}, cs[k].slices, Unregistered(index, cs[k].slices, k);
    forall s, j ensures Owns(cs', j, s) <==> Owns(cs, j, s) && j != k {
    }
    forall s ensures s in index' <==> OwnersOf(index', s) != [] {
      UnregisteredAt(index, slices, k, s);
    }
    forall s ensures forall j :: j in OwnersOf(index', s) <==> Owns(cs', j, s) {
      LeaveSlice(cs, index, k, s);
    }
    forall s | s in index' ensures Distinct(index'[s]) {
      LeaveSlice(cs, index, k, s);
      assert index'[s] == OwnersOf(index', s);
    }
  }

  lemma LeaveSlice(cs: Composites, index: Index, k: Topic, s: Topic)
    requires IndexOk(cs, index) && k in cs
    ensures var o := OwnersOf(Unregistered(index, cs[k].slices, k), s);
      Distinct(o) && forall j :: j in o <==> Owns(cs - {k}, j, s)
  {
    hide Unregistered, Without;
    UnregisteredAt(index, cs[k].slices, k, s);
    var o := OwnersOf(index, s);
    WithoutSpec(o, k);
    NothingDistinct();
    forall j ensures j in o <==> Owns(cs, j, s) {
    }
    forall j ensures Owns(cs - {k}, j, s) <==> Owns(cs, j, s) && j != k {
    }
  }

  lemma LeaveDisturbs(cs: Composites, index: Index, mesh: Mesh, subs: set<Topic>, bad: set<Topic>, k: Topic)
    requires OkExcept(cs, index, mesh, subs, bad) && IndexOk(cs, index) && k in cs
    ensures OkExcept(cs - {k}, Unregistered(index, cs[k].slices, k), mesh, subs, bad + SetOf(cs[k].slices))
  {
    hide Owners, Unregistered, Without;
    var slices, index' := cs[k].slices, Unregistered(index, cs[k].slices, k);
    forall s | s in index' && s !in bad && s !in slices ensures SliceOk(cs - {k}, mesh, subs, s) {
      UnregisteredAt(index, slices, k, s);
      assert SliceOk(cs, mesh, subs, s);
      OwnersElsewhere(cs - {k}, k, cs[k], s);
      assert (cs - {k})[k := cs[k]] == cs;
    }
  }

  lemma JoinDisturbs(cs: Composites, index: Index, mesh: Mesh, subs: set<Topic>, bad: set<Topic>, k: Topic, c: Composite)
    requires OkExcept(cs, index, mesh, subs, bad) && k !in cs && Distinct(c.slices)
    ensures OkExcept(cs[k := c], Registered(index, c.slices, k), mesh, subs, bad + SetOf(c.slices))
  {
    hide Owners, Registered;
    var index' := Registered(index, c.slices, k);
    forall s | s in index' && s !in bad && s !in c.slices ensures SliceOk(cs[k := c], mesh, subs, s) {
      RegisteredAt(index, c.slices, k, s);
      assert SliceOk(cs, mesh, subs, s);
      OwnersElsewhere(cs, k, c, s);
    }
  }

  // ----- classification -----

  /** Does any advertised bitmask cover the slice? */
  predicate PeerCovers(advertised: set<Topic>, s: Topic) { exists b :: b in advertised && Covers(b, s) }

  predicate CoversEvery(advertised: set<Topic>,
                        slices: seq<Topic>) { forall i :: 0 <= i < |slices| ==> PeerCovers(advertised, slices[i]) }

  predicate CoversSome(advertised: set<Topic>,
                       slices: seq<Topic>) { exists i :: 0 <= i < |slices| && PeerCovers(advertised, slices[i]) }

  /** classify and admit: into same if every slice is covered, else into broker unless already same. */
  function Admitted(c: Composite, advertised: set<Topic>, p: Peer): (r: Composite)
    ensures r.slices == c.slices && r.Members() == c.Members() + {p}
    ensures c.same !! c.broker ==> r.same !! r.broker
  {
    if CoversEvery(advertised, c.slices) then c.(same := c.same + {p}, broker := c.broker - {p})
    else if p in c.same then c
    else c.(broker := c.broker + {p})
  }

  /** reclassify_composites_for_peer on one composite: a new coverer comes in while there is room. */
  function Reclassified(c: Composite, advertised: set<Topic>, n: nat, backedOff: bool, p: Peer): (r: Composite)
  {
    if p in c.Members() || |c.same| + |c.broker| >= n || backedOff then c
    else if CoversEvery(advertised, c.slices) then c.(same := c.same + {p})
    else if CoversSome(advertised, c.slices) then c.(broker := c.broker + {p})
    else c
  }

  /** same -> broker. */
  function Demoted(c: Composite, p: Peer): (r: Composite)
    ensures r.slices == c.slices && r.Members() == c.Members()
    ensures c.same !! c.broker ==> r.same !! r.broker
  {
    if p in c.same then c.(same := c.same - {p}, broker := c.broker + {p}) else c
  }

  // ----- routing -----

  /** mesh_recipients. */
  ghost function Recipients(cs: Composites, mesh: Mesh, m: Topic): (r: set<Peer>)
  {
    (if m in mesh then mesh[m] else {}) + (if m in cs then cs[m].Members() else {})
    + set s, p | s in Slices(m) && s in mesh && p in mesh[s] :: p
  }

  /** A node whose composite b covers the non-zero bitmask m sends m to all of b's peers, if any slice of m is in order. */
  lemma CoveringRelayReached(cs: Composites, index: Index, mesh: Mesh, subs: set<Topic>, b: Topic, m: Topic)
    requires WellFormed(cs) && IndexOk(cs, index)
    requires b in cs && Covers(b, m) && !IsZero(m)
    requires exists s :: s in Slices(m) && s !in Disturbance(cs, index, mesh, subs)
    ensures cs[b].Members() <= Recipients(cs, mesh, m)
  {
    hide Slices, Covers, IsZero, Owners;
    CoveredSlices(b, m);
    var s :| s in Slices(m) && s !in Disturbance(cs, index, mesh, subs);
    assert s in Slices(m) && Owns(cs, b, s);
    assert SliceOk(cs, mesh, subs, s);
    forall p | p in cs[b].Members() ensures p in Recipients(cs, mesh, m) {
      OwnersMember(cs, s, p);
      assert s in Slices(m) && s in mesh && p in mesh[s];
    }
  }
}
