/** The byte-budgeted message cache of mcache.rs. */
module MessageCache {
  import opened Network
  import opened Wrappers

  type Id = seq<int>

  datatype Message = Message(data: seq<int>, topic: Topic, validated: bool)
  datatype Cached = Cached(msg: Message, peers: set<Peer>)
  datatype Entry = Entry(mid: Id, topic: Topic)
  type Messages = map<Id, Cached>
  type Counts = map<Id, map<Peer, nat>>
  type Window = seq<Entry>

  /** entry_bytes. */
  function EntryBytes(mid: Id, c: Cached): (n: nat) { |mid| + |c.msg.data| + |c.msg.topic| }

  // ----- the bytes of a set of messages -----

  ghost function Bytes(m: Messages): (n: nat)
  {
    if m == map[] then 0 else
      var k :| k in m;
      EntryBytes(k, m[k]) + Bytes(m - {k})
  }

  /** Bytes does not depend on the order in which messages are counted. */
  lemma {:induction false} BytesOf(m: Messages, k: Id)
    requires k in m
    ensures Bytes(m) == EntryBytes(k, m[k]) + Bytes(m - {k})
    decreases |m|
  {
    hide EntryBytes;
    var j :| j in m && Bytes(m) == EntryBytes(j, m[j]) + Bytes(m - {j});
    if j != k {
      BytesOf(m - {j}, k);
      BytesOf(m - {k}, j);
      assert m - {j} - {k} == m - {k} - {j};
    }
  }

  lemma BytesAdd(m: Messages, k: Id, c: Cached)
    requires k !in m
    ensures Bytes(m[k := c]) == Bytes(m) + EntryBytes(k, c)
  {
    hide EntryBytes, Bytes;
    BytesOf(m[k := c], k);
    assert m[k := c] - {k} == m;
  }

  /** Replacing a message by one of the same size. */
  lemma BytesReplace(m: Messages, k: Id, c: Cached)
    requires k in m && EntryBytes(k, c) == EntryBytes(k, m[k])
    ensures Bytes(m[k := c]) == Bytes(m)
  {
    hide EntryBytes, Bytes;
    BytesOf(m, k);
    BytesOf(m[k := c], k);
    assert m[k := c] - {k} == m - {k};
  }

  lemma BytesEmpty()
    ensures Bytes(map[]) == 0
  {
  }

  // ----- windows -----

  function Ids(w: Window): (s: set<Id>) { set i | 0 <= i < |w| :: w[i].mid }

  /** The ids mentioned in the windows from idx on. */
  function IdsFrom(h: seq<Window>, idx: nat): (s: set<Id>)
    requires idx <= |h|
    decreases |h| - idx
  {
    if idx == |h| then {} else Ids(h[idx]) + IdsFrom(h, idx + 1)
  }

  lemma {:induction false} IdsFromMember(h: seq<Window>, idx: nat, i: nat, k: Id)
    requires idx <= i < |h| && k in Ids(h[i])
    ensures k in IdsFrom(h, idx)
    decreases |h| - idx
  {
    hide Ids;
    if idx < i {
      IdsFromMember(h, idx + 1, i, k);
    }
  }

  /** h with the windows from idx on emptied. */
  function Emptied(h: seq<Window>, idx: nat): (r: seq<Window>)
    requires idx <= |h|
    ensures |r| == |h|
  {
    seq(|h|, i requires 0 <= i < |h| => if i < idx then h[i] else [])
  }

  /** Every cached id is in some window. */
  ghost predicate Listed(m: Messages, h: seq<Window>) { forall k :: k in m ==> exists i :: 0 <= i < |h| && k in Ids(h[i]) }

  ghost predicate Consistent(m: Messages, counts: Counts, h: seq<Window>, bytes: int) {
    && bytes == Bytes(m) && Listed(m, h) && counts.Keys <= m.Keys && |h| >= 1
  }

  /** What budget eviction leaves when it empties the windows from idx on. */
  ghost function After(m: Messages, h: seq<Window>, idx: nat): (r: Messages)
    requires idx <= |h|
  {
    m - IdsFrom(h, idx)
  }

  /** idx is the cut of a minimal eviction to max bytes, sparing window 0. */
  ghost predicate IsCut(m: Messages, h: seq<Window>, max: nat, idx: nat) {
    && 1 <= idx <= |h|
    && (idx < |h| ==> Bytes(After(m, h, idx + 1)) > max)
    && (Bytes(After(m, h, idx)) <= max || idx == 1)
  }

  lemma NothingFrom(m: Messages, h: seq<Window>)
    ensures After(m, h, |h|) == m
  {
  }

  class Cache {
    var msgs: Messages
    var iwantCounts: Counts
    var history: seq<Window>
    var curBytes: int
    const maxBytes: nat

    ghost function Value(): (v: View)
      reads this
    {
      View(msgs.Keys, history)
    }

    ghost predicate Valid()
      reads this
    {
      Consistent(msgs, iwantCounts, history, curBytes)
    }

    /** new; the source expects more than one window, one is enough here. */
    constructor (capacity: nat, maxBytes: nat)
      requires capacity >= 1
      ensures Valid() && msgs == map[] && |history| == capacity && this.maxBytes == maxBytes
    {
      msgs, iwantCounts, curBytes := map[], map[], 0;
      history := seq(capacity, i => []);
      this.maxBytes := maxBytes;
      BytesEmpty();
    }

    /** Forgets one id; the subtraction never goes below zero. */
    method Forget(mid: Id)
      requires curBytes == Bytes(msgs)
      modifies this`msgs, this`curBytes, this`iwantCounts
      ensures msgs == old(msgs) - {mid} && curBytes == Bytes(msgs) && iwantCounts == old(iwantCounts) - {mid}
    {
      hide Bytes, EntryBytes;
      if mid in msgs {
        BytesOf(msgs, mid);
        assert EntryBytes(mid, msgs[mid]) <= curBytes;
        curBytes := curBytes - EntryBytes(mid, msgs[mid]);
        msgs := msgs - {mid};
      } else {
        assert msgs - {mid} == msgs;
      }
      iwantCounts := iwantCounts - {mid};
    }

    /** Forgets every id of a window. */
    method ForgetWindow(w: Window)
      requires curBytes == Bytes(msgs)
      modifies this`msgs, this`curBytes, this`iwantCounts
      ensures msgs == old(msgs) - Ids(w) && curBytes == Bytes(msgs) && iwantCounts == old(iwantCounts) - Ids(w)
    {
      hide Bytes, EntryBytes, Ids;
      NoIds(w[..0]);
      for i := 0 to |w|
        invariant msgs == old(msgs) - Ids(w[..i]) && curBytes == Bytes(msgs) && iwantCounts == old(iwantCounts) - Ids(w[..i])
      {
        MoreIds(w, i);
        Forget(w[i].mid);
      }
      assert w[..|w|] == w;
    }

    /** evict_to_budget: a minimal run of oldest windows is drained, never the current one. */
    method EvictToBudget() returns (ghost idx: nat)
      requires Valid()
      modifies this`msgs, this`curBytes, this`iwantCounts, this`history
      ensures Valid() && 1 <= idx <= |old(history)| && history == Emptied(old(history), idx)
      ensures msgs == After(old(msgs), old(history), idx) && iwantCounts == old(iwantCounts) - IdsFrom(old(history), idx)
      ensures maxBytes == 0 ==> idx == |old(history)|
      ensures maxBytes > 0 ==> IsCut(old(msgs), old(history), maxBytes, idx)
    {
      hide Bytes, Ids, Listed, Emptied, IdsFrom;
      ghost var m, h, c := msgs, history, iwantCounts;
      idx := |h|;
      EvictNothing(m, c, h);
      if maxBytes == 0 {
        return;
      }
      var i := |history|;
      while curBytes > maxBytes && i > 1
        invariant 1 <= i <= |h| && history == Emptied(h, i)
        invariant msgs == After(m, h, i) && curBytes == Bytes(msgs) && iwantCounts == c - IdsFrom(h, i)
        invariant i < |h| ==> Bytes(After(m, h, i + 1)) > maxBytes
        decreases i
      {
        EvictOne(m, c, h, i - 1);
        i := i - 1;
        var w := history[i];
        history := history[i := []];
        ForgetWindow(w);
      }
      idx := i;
      EvictedListed(m, h, i);
    }

    /** put: false and no change for a known id; otherwise the message is in the current window and the budget is enforced. */
    method Put(mid: Id, msg: Message) returns (added: bool, ghost idx: nat)
      requires Valid()
      modifies this`msgs, this`curBytes, this`iwantCounts, this`history
      ensures Valid() && |history| == |old(history)| && added == (mid !in old(msgs))
      ensures !added ==> msgs == old(msgs) && history == old(history) && iwantCounts == old(iwantCounts)
      ensures added ==> 1 <= idx <= |old(history)|
      ensures added ==> msgs == After(old(msgs)[mid := Cached(msg, {})], WithEntry(old(history), Entry(mid, msg.topic)), idx)
      ensures added ==> history == Emptied(WithEntry(old(history), Entry(mid, msg.topic)), idx)
      ensures added ==> iwantCounts == old(iwantCounts) - IdsFrom(WithEntry(old(history), Entry(mid, msg.topic)), idx)
      ensures added && maxBytes == 0 ==> idx == |old(history)|
      ensures added && maxBytes > 0 ==>
        IsCut(old(msgs)[mid := Cached(msg, {})], WithEntry(old(history), Entry(mid, msg.topic)), maxBytes, idx)
      ensures added && maxBytes > 0 ==> curBytes <= maxBytes || forall i :: 1 <= i < |history| ==> history[i] == []
      ensures added && idx == |history| ==> curBytes == old(curBytes) + |mid| + |msg.data| + |msg.topic|
    {
      hide Bytes, Ids, Listed, IdsFrom;
      if mid in msgs {
        return false, 1;
      }
      ghost var m, h := msgs, history;
      var c := Cached(msg, {});
      BytesAdd(msgs, mid, c);
      PutListed(msgs, history, mid, c, Entry(mid, msg.topic));
      curBytes := curBytes + EntryBytes(mid, c);
      msgs := msgs[mid := c];
      history := WithEntry(history, Entry(mid, msg.topic));
      idx := EvictToBudget();
      added := true;
      if idx == |history| {
        NothingFrom(m[mid := c], WithEntry(h, Entry(mid, msg.topic)));
      }
    }

    /** observe_duplicate: peers are recorded only until the message is validated. */
    method ObserveDuplicate(mid: Id, source: Peer)
      requires Valid()
      modifies this`msgs
      ensures Valid() && msgs.Keys == old(msgs).Keys
      ensures forall k :: k in msgs && k != mid ==> msgs[k] == old(msgs)[k]
      ensures mid in msgs ==> msgs[mid].msg == old(msgs)[mid].msg
      ensures mid in msgs ==> msgs[mid].peers == old(msgs)[mid].peers + if msgs[mid].msg.validated then {} else {source}
    {
      hide Bytes, Ids;
      if mid in msgs && !msgs[mid].msg.validated {
        var c := msgs[mid].(peers := msgs[mid].peers + {source});
        BytesReplace(msgs, mid, c);
        msgs := msgs[mid := c];
      }
    }

    /** get_with_iwant_counts: counts requests for validated messages only. */
    method GetWithIwantCounts(mid: Id, peer: Peer) returns (r: Option<(Message, nat)>)
      requires Valid()
      modifies this`iwantCounts
      ensures Valid()
      ensures r.Some? <==> mid in msgs && msgs[mid].msg.validated
      ensures r.None? ==> iwantCounts == old(iwantCounts)
      ensures r.Some? ==> r.value.0 == msgs[mid].msg && r.value.1 == Asked(old(iwantCounts), mid, peer) + 1
      ensures r.Some? ==> forall k, p :: Asked(iwantCounts, k, p) == if k == mid && p == peer then r.value.1 else Asked(old(iwantCounts), k, p)
    {
      hide Bytes, Ids;
      r := None;
      if mid in msgs && msgs[mid].msg.validated {
        var counts := if mid in iwantCounts then iwantCounts[mid] else map[];
        var n := (if peer in counts then counts[peer] else 0) + 1;
        iwantCounts := iwantCounts[mid := counts[peer := n]];
        r := Some((msgs[mid].msg, n));
      }
    }

    /** validate: hands out the recorded peers once. */
    method Validate(mid: Id) returns (r: Option<set<Peer>>)
      requires Valid()
      modifies this`msgs
      ensures Valid() && msgs.Keys == old(msgs).Keys
      ensures r == if mid in old(msgs) then Some(old(msgs)[mid].peers) else None
      ensures forall k :: k in msgs && k != mid ==> msgs[k] == old(msgs)[k]
      ensures mid in msgs ==> msgs[mid] == Cached(old(msgs)[mid].msg.(validated := true), {})
    {
      hide Bytes, Ids;
      r := None;
      if mid in msgs {
        r := Some(msgs[mid].peers);
        var c := Cached(msgs[mid].msg.(validated := true), {});
        BytesReplace(msgs, mid, c);
        msgs := msgs[mid := c];
      }
    }

    /** shift: the oldest window's messages go, an empty window comes in front. */
    method Shift()
      requires Valid()
      modifies this
      ensures Valid() && history == [[]] + old(history)[..|old(history)| - 1]
      ensures msgs == old(msgs) - Ids(old(history)[|old(history)| - 1])
      ensures iwantCounts == old(iwantCounts) - Ids(old(history)[|old(history)| - 1])
    {
      hide Bytes, Ids, Listed;
      var n := |history| - 1;
      var w := history[n];
      ShiftListed(msgs, history);
      history := history[..n];
      ForgetWindow(w);
      history := [[]] + history;
    }

    /** remove: the id stays in its window and is ignored there. */
    method Remove(mid: Id) returns (r: Option<Cached>)
      requires Valid()
      modifies this`msgs, this`curBytes, this`iwantCounts
      ensures Valid() && msgs == old(msgs) - {mid} && iwantCounts == old(iwantCounts) - {mid}
      ensures r == if mid in old(msgs) then Some(old(msgs)[mid]) else None
    {
      hide Bytes, Ids;
      r := if mid in msgs then Some(msgs[mid]) else None;
      Forget(mid);
    }

    /** Any sequence of calls and the cut of each eviction; without a budget nothing is evicted. */
    method Perform(calls: seq<Call>) returns (ghost cuts: seq<nat>)
      requires Valid()
      modifies this
      ensures Valid() && |cuts| == |calls| && 1 <= |history| == |old(history)|
      ensures Value() == Run(old(Value()), Trace(calls, cuts))
      ensures maxBytes == 0 ==> forall i :: 0 <= i < |cuts| ==> cuts[i] == |history|
    {
      hide Bytes, Ids, Listed, IdsFrom, Emptied, Applied, Run, Trace, Consistent;
      cuts := [];
      ghost var v := Value();
      ConsistentWindows(msgs, iwantCounts, history, curBytes);
      TraceNothing(v);
      assert calls[..0] == [];
      for i := 0 to |calls|
        invariant Valid() && |cuts| == i && 1 <= |history| == |v.history| && Value() == Run(v, Trace(calls[..i], cuts))
        invariant maxBytes == 0 ==> forall j :: 0 <= j < |cuts| ==> cuts[j] == |history|
      {
        ghost var idx := |history|;
        ghost var m, h := msgs, history;
        match calls[i] {
          case Put(mid, msg) =>
            var added, cut := Put(mid, msg);
            idx := if added then cut else idx;
            PutView(m, h, mid, msg, idx);
          case Observe(mid, source) => ObserveDuplicate(mid, source);
          case Iwant(mid, peer) => var _ := GetWithIwantCounts(mid, peer);
          case Accept(mid) => var _ := Validate(mid);
          case Pass =>
            Shift();
            PassView(m, h);
          case Discard(mid) =>
            var _ := Remove(mid);
            DiscardView(m, h, mid);
        }
        QuietView(Value());
        TraceStep(v, calls, i, cuts, idx);
        cuts := cuts + [idx];
      }
      assert calls[..|calls|] == calls;
    }
  }

  // ----- how long a message stays -----

  /** What a run keeps of the cache: the cached ids and the windows. */
  datatype View = View(keys: set<Id>, history: seq<Window>)

  datatype Call =
    | Put(mid: Id, msg: Message) | Observe(mid: Id, source: Peer) | Iwant(mid: Id, peer: Peer)
    | Accept(mid: Id) | Pass | Discard(mid: Id)

  /** What a call can do to a view: shift, insert, evict the windows from idx on, remove. */
  datatype Op = Age | Insert(entry: Entry) | Evict(idx: nat) | Drop(mid: Id)

  ghost function Applied(v: View, op: Op): (r: View)
    requires |v.history| >= 1
    ensures |r.history| == |v.history|
  {
    var n := |v.history|;
    match op
    case Age => View(v.keys - Ids(v.history[n - 1]), [[]] + v.history[..n - 1])
    case Insert(e) => if e.mid in v.keys then v else View(v.keys + {e.mid}, WithEntry(v.history, e))
    case Evict(idx) => if idx > n then v else View(v.keys - IdsFrom(v.history, idx), Emptied(v.history, idx))
    case Drop(mid) => View(v.keys - {mid}, v.history)
  }

  ghost function Run(v: View, ops: seq<Op>): (r: View)
    requires |v.history| >= 1
    ensures |r.history| == |v.history|
  {
    if ops == [] then v else Applied(Run(v, ops[..|ops| - 1]), ops[|ops| - 1])
  }

  /** What the calls do, given the cut of each eviction. */
  function Trace(calls: seq<Call>, cuts: seq<nat>): (ops: seq<Op>)
    requires |calls| == |cuts|
  {
    if calls == [] then [] else Trace(calls[..|calls| - 1], cuts[..|cuts| - 1]) + Effect(calls[|calls| - 1], cuts[|cuts| - 1])
  }

  function Effect(call: Call, idx: nat): (ops: seq<Op>)
  {
    match call
    case Put(mid, msg) => [Insert(Entry(mid, msg.topic)), Evict(idx)]
    case Pass => [Age]
    case Discard(mid) => [Drop(mid)]
    case _ => []
  }

  /** i is the oldest window that mentions id k. */
  ghost predicate Oldest(h: seq<Window>, k: Id, i: nat) {
    i < |h| && k in Ids(h[i]) && forall j :: i < j < |h| ==> k !in Ids(h[j])
  }

  function Ages(ops: seq<Op>): (n: nat)
  {
    if ops == [] then 0 else Ages(ops[..|ops| - 1]) + if ops[|ops| - 1].Age? then 1 else 0
  }

  /** The operation removes k, or drains the window at i out of n, the oldest to mention k. */
  predicate Ends(n: nat, i: nat, op: Op, k: Id)
  {
    match op
    case Age => i + 1 == n
    case Insert(_) => false
    case Evict(idx) => idx <= i
    case Drop(mid) => mid == k
  }

  /** Operation number j ends the stay of k, first mentioned in window i. */
  predicate EndsAt(n: nat, i: nat, ops: seq<Op>, k: Id, j: nat) { j < |ops| && Ends(n, i + Ages(ops[..j]), ops[j], k) }

  /** k is cached after each of the operations. */
  ghost predicate Held(v: View, ops: seq<Op>, k: Id)
    requires |v.history| >= 1
  {
    k in Run(v, ops).keys && (ops != [] ==> Held(v, ops[..|ops| - 1], k))
  }

  lemma AppliedId(v: View, op: Op, k: Id, i: nat)
    requires |v.history| >= 1 && k in v.keys && Oldest(v.history, k, i)
    ensures k in Applied(v, op).keys <==> !Ends(|v.history|, i, op, k)
    ensures !Ends(|v.history|, i, op, k) ==> Oldest(Applied(v, op).history, k, if op.Age? then i + 1 else i)
  {
    hide Ids, IdsFrom;
    var h := v.history;
    match op
    case Age =>
      var h' := Applied(v, op).history;
      assert forall j :: 1 <= j < |h| ==> h'[j] == h[j - 1];
    case Insert(e) => AppendedIds(h[0], e);
    case Evict(idx) =>
      if idx <= |h| {
        IdsFromExists(h, idx, k);
        if idx <= i {
          IdsFromMember(h, idx, i, k);
        } else {
          NoIds([]);
        }
      }
    case Drop(mid) =>
  }

  lemma {:induction false} IdsFromExists(h: seq<Window>, idx: nat, k: Id)
    requires idx <= |h|
    ensures k in IdsFrom(h, idx) ==> exists j :: idx <= j < |h| && k in Ids(h[j])
    decreases |h| - idx
  {
    hide Ids;
    if idx < |h| {
      IdsFromExists(h, idx + 1, k);
    }
  }

  /** A message stays exactly until it is removed or the oldest window that mentions its id is drained. */
  lemma {:induction false} HeldExactly(v: View, ops: seq<Op>, k: Id, i: nat)
    requires |v.history| >= 1 && k in v.keys && Oldest(v.history, k, i)
    ensures Held(v, ops, k) <==> forall j: nat :: !EndsAt(|v.history|, i, ops, k, j)
    ensures Held(v, ops, k) ==> k in Run(v, ops).keys && Oldest(Run(v, ops).history, k, i + Ages(ops))
  {
    hide Applied, Oldest, Ends, EndsAt;
    EndsAtFront(|v.history|, i, ops, k);
    if ops != [] {
      var front, op := ops[..|ops| - 1], ops[|ops| - 1];
      HeldExactly(v, front, k, i);
      if Held(v, front, k) {
        AppliedId(Run(v, front), op, k, i + Ages(front));
      } else {
        var j: nat :| EndsAt(|v.history|, i, front, k, j);
        assert EndsAt(|v.history|, i, ops, k, j);
      }
    }
  }

  lemma {:induction false} EndsAtFront(n: nat, i: nat, ops: seq<Op>, k: Id)
    ensures ops == [] ==> forall j: nat :: !EndsAt(n, i, ops, k, j)
    ensures ops != [] ==> forall j: nat :: j != |ops| - 1 ==> (EndsAt(n, i, ops, k, j) <==> EndsAt(n, i, ops[..|ops| - 1], k, j))
    ensures ops != [] ==> !EndsAt(n, i, ops[..|ops| - 1], k, |ops| - 1)
    ensures ops != [] ==>
      (EndsAt(n, i, ops, k, |ops| - 1) <==> Ends(n, i + Ages(ops[..|ops| - 1]), ops[|ops| - 1], k))
  {
    hide Ends;
    if ops != [] {
      var front := ops[..|ops| - 1];
      forall j: nat | j < |front| ensures EndsAt(n, i, ops, k, j) <==> EndsAt(n, i, front, k, j) {
        assert front[..j] == ops[..j];
      }
    }
  }

  /**
   Without removal or eviction, a message put now survives exactly as many shifts as there are windows behind the oldest that
   mentions its id; these are all the other windows exactly if no older window mentions it at the put.
   */
  lemma {:induction false} Lifetime(v: View, e: Entry, ops: seq<Op>, i: nat)
    requires |v.history| >= 1 && e.mid !in v.keys && Oldest(WithEntry(v.history, e), e.mid, i)
    requires forall j :: 0 <= j < |ops| ==> ops[j] != Drop(e.mid) && (ops[j].Evict? ==> ops[j].idx >= |v.history|)
    ensures Held(Applied(v, Insert(e)), ops, e.mid) <==> Ages(ops) <= |v.history| - 1 - i
    ensures i == 0 <==> forall j :: 1 <= j < |v.history| ==> e.mid !in Ids(v.history[j])
  {
    hide Ids, Run, IdsFrom, Emptied, Held, EndsAt, Oldest;
    PutOldest(v.history, e, i);
    HeldExactly(Applied(v, Insert(e)), ops, e.mid, i);
    OnlyShiftsEnd(|v.history|, i, ops, e.mid);
  }

  lemma {:induction false} PutOldest(h: seq<Window>, e: Entry, i: nat)
    requires |h| >= 1 && Oldest(WithEntry(h, e), e.mid, i)
    ensures i < |h| && (i == 0 <==> forall j :: 1 <= j < |h| ==> e.mid !in Ids(h[j]))
  {
    hide Ids;
    assert forall j :: 1 <= j < |h| ==> WithEntry(h, e)[j] == h[j];
  }

  lemma {:induction false} OnlyShiftsEnd(n: nat, i: nat, ops: seq<Op>, k: Id)
    requires i < n && forall j :: 0 <= j < |ops| ==> ops[j] != Drop(k) && (ops[j].Evict? ==> ops[j].idx >= n)
    ensures (forall j: nat :: !EndsAt(n, i, ops, k, j)) <==> Ages(ops) <= n - 1 - i
  {
    hide Ages;
    if Ages(ops) > n - 1 - i {
      var j := AgeNumber(ops, n - 1 - i);
      assert EndsAt(n, i, ops, k, j);
    } else {
      forall j: nat ensures !EndsAt(n, i, ops, k, j) {
        if j < |ops| {
          AgesOfPrefix(ops, j);
        }
      }
    }
  }

  /** There is always an oldest window that mentions a message just put. */
  lemma {:induction false} OldestExists(h: seq<Window>, k: Id, j: nat) returns (i: nat)
    requires j < |h| && k in Ids(h[j])
    ensures j <= i && Oldest(h, k, i)
    decreases |h| - j
  {
    hide Ids;
    i := j;
    if l :| j < l < |h| && k in Ids(h[l]) {
      i := OldestExists(h, k, l);
    }
  }

  lemma {:induction false} AgesOfPrefix(ops: seq<Op>, j: nat)
    requires j < |ops|
    ensures Ages(ops[..j]) + (if ops[j].Age? then 1 else 0) <= Ages(ops)
  {
    var front := ops[..|ops| - 1];
    if j < |front| {
      AgesOfPrefix(front, j);
      assert front[..j] == ops[..j];
    }
  }

  /** The position of shift number n, counted from 0. */
  lemma {:induction false} AgeNumber(ops: seq<Op>, n: nat) returns (j: nat)
    requires n < Ages(ops)
    ensures j < |ops| && ops[j].Age? && Ages(ops[..j]) == n
  {
    var front := ops[..|ops| - 1];
    if n < Ages(front) {
      j := AgeNumber(front, n);
      assert front[..j] == ops[..j];
    } else {
      j := |front|;
    }
  }

  // ----- calls as operations -----

  lemma {:induction false} ConsistentWindows(m: Messages, counts: Counts, h: seq<Window>, bytes: int)
    requires Consistent(m, counts, h, bytes)
    ensures |h| >= 1
  {
  }

  lemma TraceNothing(v: View)
    requires |v.history| >= 1
    ensures Trace([], []) == [] && Run(v, Trace([], [])) == v
  {
  }

  lemma {:induction false} TraceStep(v: View, calls: seq<Call>, i: nat, cuts: seq<nat>, idx: nat)
    requires |v.history| >= 1 && i < |calls| && |cuts| == i
    ensures Run(v, Trace(calls[..i + 1], cuts + [idx])) == Run(Run(v, Trace(calls[..i], cuts)), Effect(calls[i], idx))
  {
    hide Run, Effect;
    assert calls[..i + 1][..i] == calls[..i] && (cuts + [idx])[..i] == cuts;
    RunAppend(v, Trace(calls[..i], cuts), Effect(calls[i], idx));
  }

  lemma {:induction false} RunAppend(v: View, a: seq<Op>, b: seq<Op>)
    requires |v.history| >= 1
    ensures Run(v, a + b) == Run(Run(v, a), b)
  {
    hide Applied;
    if b == [] {
      assert a + b == a;
    } else {
      RunAppend(v, a, b[..|b| - 1]);
      assert (a + b)[..|a + b| - 1] == a + b[..|b| - 1];
    }
  }

  lemma QuietView(v: View)
    requires |v.history| >= 1
    ensures Run(v, []) == v
  {
  }

  lemma RunOne(v: View, op: Op)
    requires |v.history| >= 1
    ensures Run(v, [op]) == Applied(v, op)
  {
    hide Applied;
    assert [op][..0] == [];
  }

  lemma {:induction false} PutView(m: Messages, h: seq<Window>, mid: Id, msg: Message, idx: nat)
    requires |h| >= 1 && idx <= |h| && (mid in m ==> idx == |h|)
    ensures var e, c := Entry(mid, msg.topic), Cached(msg, {});
      Run(View(m.Keys, h), Effect(Put(mid, msg), idx)) ==
        if mid in m then View(m.Keys, h) else View(After(m[mid := c], WithEntry(h, e), idx).Keys, Emptied(WithEntry(h, e), idx))
  {
    hide Ids, IdsFrom, Emptied, Run;
    var e, c := Entry(mid, msg.topic), Cached(msg, {});
    var v := View(m.Keys, h);
    assert [Insert(e), Evict(idx)] == [Insert(e)] + [Evict(idx)];
    RunAppend(v, [Insert(e)], [Evict(idx)]);
    RunOne(v, Insert(e));
    RunOne(Applied(v, Insert(e)), Evict(idx));
    EvictNothing(m, map[], h);
    assert m[mid := c].Keys == m.Keys + {mid};
    assert After(m, h, |h|).Keys == m.Keys - IdsFrom(h, |h|);
  }

  lemma {:induction false} PassView(m: Messages, h: seq<Window>)
    requires |h| >= 1
    ensures Run(View(m.Keys, h), Effect(Pass, |h|)) == View((m - Ids(h[|h| - 1])).Keys, [[]] + h[..|h| - 1])
  {
    hide Ids, Run;
    RunOne(View(m.Keys, h), Age);
  }

  lemma {:induction false} DiscardView(m: Messages, h: seq<Window>, mid: Id)
    requires |h| >= 1
    ensures Run(View(m.Keys, h), Effect(Discard(mid), |h|)) == View((m - {mid}).Keys, h)
  {
    hide Run;
    RunOne(View(m.Keys, h), Drop(mid));
  }

  /** The current window with one entry more. */
  function WithEntry(h: seq<Window>, e: Entry): (r: seq<Window>)
    requires |h| >= 1
    ensures |r| == |h|
  {
    h[0 := h[0] + [e]]
  }

  /** How often a peer has asked for a message. */
  function Asked(counts: Counts, mid: Id, peer: Peer): (n: nat)
  {
    if mid in counts && peer in counts[mid] then counts[mid][peer] else 0
  }

  // ----- lemmas -----

  lemma NoIds(w: Window)
    requires w == []
    ensures Ids(w) == {}
  {
  }

  lemma MoreIds(w: Window, i: nat)
    requires i < |w|
    ensures Ids(w[..i + 1]) == Ids(w[..i]) + {w[i].mid}
  {
    forall k | k in Ids(w[..i]) ensures k in Ids(w[..i + 1]) {
      var j :| 0 <= j < i && w[..i][j].mid == k;
      assert w[..i + 1][j].mid == k;
    }
    assert w[..i + 1][i].mid == w[i].mid;
    forall k | k in Ids(w[..i + 1]) ensures k in Ids(w[..i]) + {w[i].mid} {
      var j :| 0 <= j < i + 1 && w[..i + 1][j].mid == k;
      assert j < i ==> w[..i][j].mid == k;
    }
  }

  lemma {:induction false} EvictNothing(m: Messages, c: Counts, h: seq<Window>)
    ensures After(m, h, |h|) == m && c - IdsFrom(h, |h|) == c && Emptied(h, |h|) == h
  {
    hide Ids;
    assert IdsFrom(h, |h|) == {};
  }

  /** One window more. */
  lemma {:induction false} EvictOne(m: Messages, c: Counts, h: seq<Window>, i: nat)
    requires i < |h|
    ensures After(m, h, i) == After(m, h, i + 1) - Ids(h[i]) && c - IdsFrom(h, i) == c - IdsFrom(h, i + 1) - Ids(h[i])
    ensures Emptied(h, i + 1)[i] == h[i] && Emptied(h, i) == Emptied(h, i + 1)[i := []]
  {
    hide Ids;
  }

  lemma {:induction false} EvictedListed(m: Messages, h: seq<Window>, i: nat)
    requires Listed(m, h) && i <= |h|
    ensures Listed(After(m, h, i), Emptied(h, i))
  {
    hide Ids;
    forall k | k in After(m, h, i) ensures exists j :: 0 <= j < |h| && k in Ids(Emptied(h, i)[j]) {
      var j :| 0 <= j < |h| && k in Ids(h[j]);
      if j >= i {
        IdsFromMember(h, i, j, k);
        assert false;
      }
      assert k in Ids(Emptied(h, i)[j]);
    }
  }

  lemma {:induction false} PutListed(m: Messages, h: seq<Window>, mid: Id, c: Cached, e: Entry)
    requires |h| >= 1 && Listed(m, h) && e.mid == mid
    ensures Listed(m[mid := c], WithEntry(h, e))
  {
    hide Ids;
    var h' := WithEntry(h, e);
    AppendedIds(h[0], e);
    forall k | k == mid || k in m ensures exists i :: 0 <= i < |h'| && k in Ids(h'[i]) {
      if k == mid {
        assert k in Ids(h'[0]);
      } else {
        var i :| 0 <= i < |h| && k in Ids(h[i]);
        assert k in Ids(h'[i]);
      }
    }
  }

  lemma AppendedIds(w: Window, e: Entry)
    ensures Ids(w + [e]) == Ids(w) + {e.mid}
  {
    hide Ids;
    MoreIds(w + [e], |w|);
    assert (w + [e])[..|w|] == w && (w + [e])[..|w| + 1] == w + [e];
  }

  lemma {:induction false} ShiftListed(m: Messages, h: seq<Window>)
    requires |h| >= 1 && Listed(m, h)
    ensures Listed(m - Ids(h[|h| - 1]), [[]] + h[..|h| - 1])
  {
    hide Ids;
    var h' := [[]] + h[..|h| - 1];
    forall k | k in m && k !in Ids(h[|h| - 1]) ensures exists i :: 0 <= i < |h'| && k in Ids(h'[i]) {
      var i :| 0 <= i < |h| && k in Ids(h[i]);
      assert h'[i + 1] == h[i];
      assert k in Ids(h'[i + 1]);
    }
  }
}
