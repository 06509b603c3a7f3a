/** The backoff ring of backoff.rs: deadlines per topic and peer, expired by heartbeats. */
module Backoff {
  import opened Network

  type Pair = (Topic, Peer)
  datatype Deadline = Deadline(time: nat, slot: nat)

  /** The deadline map and the ring of per-heartbeat sets; index is the slot of the next heartbeat. */
  datatype Ring = Ring(backoffs: map<Pair, Deadline>, slots: seq<set<Pair>>, index: nat)

  /** Rounded up number of heartbeats in a duration. */
  function Heartbeats(d: nat, interval: nat): (n: nat)
    requires interval > 0
  {
    (d + interval - 1) / interval
  }

  lemma HeartbeatsSpec(d: nat, interval: nat)
    requires interval > 0
    ensures d <= Heartbeats(d, interval) * interval < d + interval
  {
    var n := Heartbeats(d, interval);
    assert d + interval - 1 == interval * n + (d + interval - 1) % interval;
  }

  lemma HeartbeatsMonotone(d: nat, d': nat, interval: nat)
    requires interval > 0 && d <= d'
    ensures Heartbeats(d, interval) <= Heartbeats(d', interval)
  {
    hide Heartbeats;
    HeartbeatsSpec(d, interval);
    HeartbeatsSpec(d', interval);
    if Heartbeats(d, interval) > Heartbeats(d', interval) {
      Factor(Heartbeats(d', interval), Heartbeats(d, interval) - 1, interval);
      assert false;
    }
  }

  lemma Factor(a: int, b: int, w: nat)
    requires a <= b
    ensures a * w <= b * w && (b + 1) * w == b * w + w
  {
  }

  /** A pair is in slot i exactly when the map stores it with slot i. */
  ghost predicate Consistent(r: Ring) {
    && r.index < |r.slots|
    && (forall p :: p in r.backoffs ==> r.backoffs[p].slot < |r.slots|)
    && forall i, p :: 0 <= i < |r.slots| ==> (p in r.slots[i] <==> p in r.backoffs && r.backoffs[p].slot == i)
  }

  // ----- the two operations on values -----

  /** Puts pair p with a deadline into a slot, taking it out of the one it was in. */
  function Stored(r: Ring, p: Pair, d: Deadline): (r': Ring)
    requires d.slot < |r.slots| && (p in r.backoffs ==> r.backoffs[p].slot < |r.slots|)
  {
    var cleared := if p in r.backoffs then r.slots[r.backoffs[p].slot := r.slots[r.backoffs[p].slot] - {p}] else r.slots;
    Ring(r.backoffs[p := d], cleared[d.slot := cleared[d.slot] + {p}], r.index)
  }

  lemma StoredConsistent(r: Ring, p: Pair, d: Deadline)
    requires Consistent(r) && d.slot < |r.slots|
    ensures Consistent(Stored(r, p, d))
  {
  }

  /** The pairs that a heartbeat drops: those in the current slot whose deadline and slack have passed. */
  ghost function Expired(r: Ring, slack: nat, now: nat): (s: set<Pair>)
    requires r.index < |r.slots|
  {
    Over(r.backoffs, r.slots[r.index], slack, now)
  }

  ghost function Ticked(r: Ring, slack: nat, now: nat): (r': Ring)
    requires r.index < |r.slots|
    ensures r'.index < |r'.slots| == |r.slots|
  {
    var gone := Expired(r, slack, now);
    Ring(r.backoffs - gone, r.slots[r.index := r.slots[r.index] - gone], (r.index + 1) % |r.slots|)
  }

  lemma TickedConsistent(r: Ring, slack: nat, now: nat)
    requires Consistent(r)
    ensures Consistent(Ticked(r, slack, now))
  {
  }

  /** A heartbeat drops a pair only after deadline and slack, and changes nothing about the others. */
  lemma TickedKeeps(r: Ring, slack: nat, now: nat, p: Pair)
    requires Consistent(r) && p in r.backoffs
    ensures p in Ticked(r, slack, now).backoffs ==> Ticked(r, slack, now).backoffs[p] == r.backoffs[p]
    ensures p !in Ticked(r, slack, now).backoffs <==> r.backoffs[p].slot == r.index && r.backoffs[p].time + slack <= now
  {
  }

  // ----- runs -----

  /** The configured interval and slack. */
  datatype Timing = Timing(interval: nat, slackBeats: nat) {
    function Slack(): (n: nat) { interval * slackBeats }
  }

  /** What can happen to the storage: a heartbeat, or update_backoff for some pair. */
  datatype Op = Beat(now: nat) | Update(pair: Pair, now: nat, time: nat)

  /** The ring after an update: a later deadline replaces the stored one, an earlier one is ignored. */
  ghost function Updated(r: Ring, tm: Timing, p: Pair, now: nat, time: nat): (r': Ring)
    requires tm.interval > 0 && Consistent(r)
  {
    if p in r.backoffs && r.backoffs[p].time >= now + time then r
    else Stored(r, p, Assigned(r, tm.interval, tm.slackBeats, now, time))
  }

  lemma UpdatedConsistent(r: Ring, tm: Timing, p: Pair, now: nat, time: nat)
    requires tm.interval > 0 && Consistent(r)
    ensures Consistent(Updated(r, tm, p, now, time)) && |Updated(r, tm, p, now, time).slots| == |r.slots|
    ensures Updated(r, tm, p, now, time).index == r.index
  {
    hide Heartbeats, Consistent;
    ConsistentIndex(r);
    StorablePair(r, p);
    StoredConsistent(r, p, Assigned(r, tm.interval, tm.slackBeats, now, time));
  }

  ghost function Applied(r: Ring, tm: Timing, op: Op): (r': Ring)
    requires tm.interval > 0 && Consistent(r)
    ensures Consistent(r') && |r'.slots| == |r.slots|
  {
    hide Consistent, Ticked, Updated;
    ConsistentIndex(r);
    match op
    case Beat(now) =>
      TickedConsistent(r, tm.Slack(), now);
      Ticked(r, tm.Slack(), now)
    case Update(p, now, time) =>
      UpdatedConsistent(r, tm, p, now, time);
      Updated(r, tm, p, now, time)
  }

  /** The ring after any sequence of updates and heartbeats. */
  ghost function Run(r: Ring, tm: Timing, ops: seq<Op>): (r': Ring)
    requires tm.interval > 0 && Consistent(r)
    ensures Consistent(r') && |r'.slots| == |r.slots|
  {
    if ops == [] then r else Applied(Run(r, tm, ops[..|ops| - 1]), tm, ops[|ops| - 1])
  }

  /** The times of the heartbeats among the operations. */
  function Beats(ops: seq<Op>): (times: seq<nat>)
  {
    if ops == [] then [] else
      var last := ops[|ops| - 1];
      Beats(ops[..|ops| - 1]) + if last.Beat? then [last.now] else []
  }

  /** No update of p among the operations asks for more than the deadline. */
  predicate Spares(ops: seq<Op>, p: Pair, deadline: nat) {
    forall i :: 0 <= i < |ops| && ops[i].Update? && ops[i].pair == p ==> ops[i].now + ops[i].time <= deadline
  }

  /** p is in the map after each of the operations. */
  ghost predicate Held(r: Ring, tm: Timing, ops: seq<Op>, p: Pair)
    requires tm.interval > 0 && Consistent(r)
  {
    p in Run(r, tm, ops).backoffs && (ops != [] ==> Held(r, tm, ops[..|ops| - 1], p))
  }

  lemma ConsistentIndex(r: Ring)
    requires Consistent(r)
    ensures r.index < |r.slots|
  {
  }

  lemma ConsistentPair(r: Ring, p: Pair)
    requires Consistent(r) && p in r.backoffs
    ensures r.index < |r.slots| && r.backoffs[p].slot < |r.slots|
  {
  }

  lemma StorablePair(r: Ring, p: Pair)
    requires Consistent(r)
    ensures p in r.backoffs ==> r.backoffs[p].slot < |r.slots|
  {
  }

  /** The slot of the j-th heartbeat from now on. */
  function Visited(i: nat, n: nat, j: nat): (slot: nat)
    requires i < n
    ensures slot < n
  {
    if j == 0 then i else
      var k := Visited(i, n, j - 1);
      if k + 1 == n then 0 else k + 1
  }

  lemma TickedIndex(r: Ring, slack: nat, now: nat)
    requires r.index < |r.slots|
    ensures Ticked(r, slack, now).index == if r.index + 1 == |r.slots| then 0 else r.index + 1
  {
  }

  lemma {:induction false} IndexOfRun(r: Ring, tm: Timing, ops: seq<Op>)
    requires tm.interval > 0 && Consistent(r)
    ensures r.index < |r.slots| && Run(r, tm, ops).index == Visited(r.index, |r.slots|, |Beats(ops)|)
  {
    hide Consistent, Ticked, Updated;
    ConsistentIndex(r);
    if ops != [] {
      var front, op := ops[..|ops| - 1], ops[|ops| - 1];
      var s := Run(r, tm, front);
      IndexOfRun(r, tm, front);
      match op
      case Beat(now) => TickedIndex(s, tm.Slack(), now);
      case Update(q, now, time) => UpdatedConsistent(s, tm, q, now, time);
    }
  }

  /** How many heartbeats pass before a slot comes up. */
  function Distance(r: Ring, slot: nat): (n: nat)
    requires r.index < |r.slots| && slot < |r.slots|
    ensures n < |r.slots|
  {
    if slot >= r.index then slot - r.index else slot + |r.slots| - r.index
  }

  /** Heartbeat number Distance is the first on the slot. */
  lemma {:induction false} FirstVisit(r: Ring, slot: nat, j: nat)
    requires r.index < |r.slots| && slot < |r.slots| && j <= Distance(r, slot)
    ensures Visited(r.index, |r.slots|, j) == slot <==> j == Distance(r, slot)
    ensures Visited(r.index, |r.slots|, j) == if r.index + j < |r.slots| then r.index + j else r.index + j - |r.slots|
  {
    if j > 0 {
      FirstVisit(r, slot, j - 1);
    }
  }

  /** The j-th heartbeat is on p's slot, and comes when its deadline and the slack are over. */
  ghost predicate Hit(r: Ring, tm: Timing, ops: seq<Op>, p: Pair, j: nat)
    requires p in r.backoffs && r.index < |r.slots|
  {
    && j < |Beats(ops)| && Visited(r.index, |r.slots|, j) == r.backoffs[p].slot
    && r.backoffs[p].time + tm.Slack() <= Beats(ops)[j]
  }

  /** An operation and a stored pair: only a heartbeat can drop it, only an update that asks for more can move it. */
  lemma AppliedPair(r: Ring, tm: Timing, op: Op, p: Pair)
    requires tm.interval > 0 && Consistent(r) && p in r.backoffs
    ensures var r' := Applied(r, tm, op);
      p !in r'.backoffs <==> op.Beat? && r.backoffs[p].slot == r.index && r.backoffs[p].time + tm.Slack() <= op.now
    ensures p in Applied(r, tm, op).backoffs ==> Applied(r, tm, op).backoffs[p].time >= r.backoffs[p].time
    ensures p in Applied(r, tm, op).backoffs && !(op.Update? && op.pair == p && op.now + op.time > r.backoffs[p].time) ==>
      Applied(r, tm, op).backoffs[p] == r.backoffs[p]
  {
    hide Consistent, Ticked, Heartbeats;
    ConsistentIndex(r);
    match op
    case Beat(now) => TickedKeeps(r, tm.Slack(), now, p);
    case Update(q, now, time) => StorablePair(r, q);
  }

  /**
   Over any run in which no update of p asks for more than its deadline, whatever happens to the other pairs: p stays, with its
   deadline, exactly as long as no heartbeat hits its slot after deadline and slack.
   */
  lemma {:induction false} HeldExactly(r: Ring, tm: Timing, ops: seq<Op>, p: Pair)
    requires tm.interval > 0 && Consistent(r) && p in r.backoffs && Spares(ops, p, r.backoffs[p].time)
    ensures r.index < |r.slots|
    ensures Held(r, tm, ops, p) <==> forall j: nat :: !Hit(r, tm, ops, p, j)
    ensures Held(r, tm, ops, p) ==> p in Run(r, tm, ops).backoffs && Run(r, tm, ops).backoffs[p] == r.backoffs[p]
  {
    hide Consistent, Applied, Visited;
    ConsistentIndex(r);
    if ops != [] {
      var front, op := ops[..|ops| - 1], ops[|ops| - 1];
      var s := Run(r, tm, front);
      HeldExactly(r, tm, front, p);
      IndexOfRun(r, tm, front);
      assert forall j: nat :: Hit(r, tm, front, p, j) ==> Hit(r, tm, ops, p, j);
      assert forall j: nat :: Hit(r, tm, ops, p, j) ==> Hit(r, tm, front, p, j) || (op.Beat? && j == |Beats(front)|);
      if Held(r, tm, front, p) {
        AppliedPair(s, tm, op, p);
        if op.Beat? {
          assert Hit(r, tm, ops, p, |Beats(front)|) <==> r.backoffs[p].slot == s.index && r.backoffs[p].time + tm.Slack() <= op.now;
        }
      }
    }
  }

  /** Until its slot comes up a pair stays with its deadline, and the slot comes nearer by one each heartbeat. */
  lemma {:induction false} StaysUntilItsSlot(r: Ring, tm: Timing, ops: seq<Op>, p: Pair)
    requires tm.interval > 0 && Consistent(r) && p in r.backoffs && Spares(ops, p, r.backoffs[p].time)
    requires |Beats(ops)| <= Distance(r, r.backoffs[p].slot)
    ensures var s := Run(r, tm, ops);
      && Held(r, tm, ops, p) && p in s.backoffs && s.backoffs[p] == r.backoffs[p]
      && Distance(s, r.backoffs[p].slot) == Distance(r, r.backoffs[p].slot) - |Beats(ops)|
  {
    hide Consistent, Run, Visited, Beats, Held, Spares;
    ConsistentPair(r, p);
    HeldExactly(r, tm, ops, p);
    forall j: nat | j < |Beats(ops)| ensures !Hit(r, tm, ops, p, j) {
      FirstVisit(r, r.backoffs[p].slot, j);
    }
    IndexOfRun(r, tm, ops);
    FirstVisit(r, r.backoffs[p].slot, |Beats(ops)|);
  }

  /**
   If deadline and slack are over, one ring length of heartbeats always suffices; and without a new update of p it is gone
   for good.
   */
  lemma {:induction false} GoneWithinOneRing(r: Ring, tm: Timing, ops: seq<Op>, p: Pair)
    requires tm.interval > 0 && Consistent(r) && p in r.backoffs && |Beats(ops)| >= |r.slots|
    requires forall i :: 0 <= i < |Beats(ops)| ==> r.backoffs[p].time + tm.Slack() <= Beats(ops)[i]
    ensures Spares(ops, p, r.backoffs[p].time) ==> !Held(r, tm, ops, p)
    ensures (forall i :: 0 <= i < |ops| && ops[i].Update? ==> ops[i].pair != p) ==> p !in Run(r, tm, ops).backoffs
  {
    hide Consistent, Visited, Beats, Run;
    ConsistentPair(r, p);
    if Spares(ops, p, r.backoffs[p].time) {
      HeldExactly(r, tm, ops, p);
      var n := Distance(r, r.backoffs[p].slot);
      FirstVisit(r, r.backoffs[p].slot, n);
      assert Hit(r, tm, ops, p, n);
      if forall i :: 0 <= i < |ops| && ops[i].Update? ==> ops[i].pair != p {
        StaysGone(r, tm, ops, p);
      }
    }
  }

  /** Without updates of p, p is in the map at the end only if it was all along. */
  lemma {:induction false} StaysGone(r: Ring, tm: Timing, ops: seq<Op>, p: Pair)
    requires tm.interval > 0 && Consistent(r)
    requires forall i :: 0 <= i < |ops| && ops[i].Update? ==> ops[i].pair != p
    ensures p in Run(r, tm, ops).backoffs ==> Held(r, tm, ops, p)
  {
    hide Consistent, Heartbeats;
    if ops != [] {
      var front, op := ops[..|ops| - 1], ops[|ops| - 1];
      StaysGone(r, tm, front, p);
      ConsistentIndex(Run(r, tm, front));
      if op.Update? {
        StorablePair(Run(r, tm, front), op.pair);
      }
    }
  }

  predicate AllBefore(times: seq<nat>, t: nat) { forall i :: 0 <= i < |times| ==> times[i] < t }

  /**
   The promise of the slack: over any run at all, as long as every heartbeat comes before a pair's deadline plus slack, the
   pair stays backed off and its deadline never moves earlier.
   */
  lemma {:induction false} NeverDroppedEarly(r: Ring, tm: Timing, ops: seq<Op>, p: Pair)
    requires tm.interval > 0 && Consistent(r) && p in r.backoffs
    requires AllBefore(Beats(ops), r.backoffs[p].time + tm.Slack())
    ensures Held(r, tm, ops, p) && p in Run(r, tm, ops).backoffs && Run(r, tm, ops).backoffs[p].time >= r.backoffs[p].time
  {
    hide Consistent, Applied;
    if ops != [] {
      var front, op := ops[..|ops| - 1], ops[|ops| - 1];
      assert forall i :: 0 <= i < |Beats(front)| ==> Beats(ops)[i] == Beats(front)[i];
      assert op.Beat? ==> Beats(ops)[|Beats(front)|] == op.now;
      NeverDroppedEarly(r, tm, front, p);
      AppliedPair(Run(r, tm, front), tm, op, p);
    }
  }

  // ----- the exact heartbeat -----

  predicate Apart(times: seq<nat>, interval: nat) { forall i :: 0 < i < |times| ==> times[i] >= times[i - 1] + interval }

  lemma {:induction false} LastIsLate(times: seq<nat>, interval: nat, start: nat)
    requires Apart(times, interval) && times != [] && times[0] >= start
    ensures times[|times| - 1] >= start + (|times| - 1) * interval
  {
    if |times| > 1 {
      var front := times[..|times| - 1];
      LastIsLate(front, interval, start);
      Factor(|times| - 2, |times| - 2, interval);
    }
  }

  /** The ring's length, as new computes it. */
  function RingLength(pruneBackoff: nat, interval: nat, slackBeats: nat): (n: nat)
    requires interval > 0
  {
    Heartbeats(pruneBackoff, interval) + slackBeats + 1
  }

  /** The slot and deadline that an update at now with duration time assigns. */
  function Assigned(r: Ring, interval: nat, slackBeats: nat, now: nat, time: nat): (d: Deadline)
    requires interval > 0 && |r.slots| > 0
    ensures d.slot < |r.slots|
  {
    Deadline(now + time, (r.index + Heartbeats(time, interval) + slackBeats) % |r.slots|)
  }

  lemma AssignedDistance(r: Ring, interval: nat, slackBeats: nat, now: nat, time: nat)
    requires interval > 0 && r.index < |r.slots| && Heartbeats(time, interval) + slackBeats < |r.slots|
    ensures Distance(r, Assigned(r, interval, slackBeats, now, time).slot) == Heartbeats(time, interval) + slackBeats
  {
    hide Heartbeats;
    Wraps(r.index, Heartbeats(time, interval) + slackBeats, |r.slots|);
  }

  lemma Wraps(i: nat, k: nat, n: nat)
    requires i < n && k < n
    ensures (i + k) % n == if i + k < n then i + k else i + k - n
  {
  }

  /**
   A backoff no longer than prune_backoff that an update at now puts in place, followed by heartbeats at least an interval
   apart and by any updates that do not ask more of p: it stays until, and goes at, exactly the (heartbeats(time) + slack + 1)-th
   of those heartbeats.
   */
  lemma {:induction false} ExactHeartbeat(r: Ring, p: Pair, pruneBackoff: nat, tm: Timing, now: nat, time: nat, ops: seq<Op>)
    requires tm.interval > 0 && Consistent(r) && |r.slots| == RingLength(pruneBackoff, tm.interval, tm.slackBeats)
    requires time <= pruneBackoff && (p in r.backoffs ==> r.backoffs[p].time < now + time)
    requires Spares(ops, p, now + time) && Apart(Beats(ops), tm.interval) && ops != [] && ops[|ops| - 1].Beat?
    requires |Beats(ops)| == Heartbeats(time, tm.interval) + tm.slackBeats + 1 && Beats(ops)[0] >= now
    ensures var r' := Updated(r, tm, p, now, time);
      && Consistent(r')
      && Held(r', tm, ops[..|ops| - 1], p)
      && p !in Run(r', tm, ops).backoffs
  {
    hide Consistent, Heartbeats, Run, Stored, Distance, Apart, Spares, Beats, Hit;
    ConsistentIndex(r);
    HeartbeatsMonotone(time, pruneBackoff, tm.interval);
    var d := Assigned(r, tm.interval, tm.slackBeats, now, time);
    AssignedDistance(r, tm.interval, tm.slackBeats, now, time);
    StorablePair(r, p);
    UpdatedConsistent(r, tm, p, now, time);
    StoredAt(r, p, d);
    LateEnough(tm, now, time, Beats(ops));
    var r' := Updated(r, tm, p, now, time);
    var front := ops[..|ops| - 1];
    LastBeat(ops);
    SparesFront(ops, p, now + time);
    StaysUntilItsSlot(r', tm, front, p);
    HeldExactly(r', tm, ops, p);
    LastHits(r', tm, ops, p);
  }

  lemma {:induction false} LastBeat(ops: seq<Op>)
    requires ops != [] && ops[|ops| - 1].Beat?
    ensures Beats(ops) == Beats(ops[..|ops| - 1]) + [ops[|ops| - 1].now]
  {
  }

  lemma {:induction false} SparesFront(ops: seq<Op>, p: Pair, deadline: nat)
    requires ops != [] && Spares(ops, p, deadline)
    ensures Spares(ops[..|ops| - 1], p, deadline)
  {
  }

  /** A last heartbeat that is the first on p's slot, after deadline and slack. */
  lemma {:induction false} LastHits(r: Ring, tm: Timing, ops: seq<Op>, p: Pair)
    requires Consistent(r) && p in r.backoffs && Beats(ops) != []
    requires r.backoffs[p].time + tm.Slack() <= Beats(ops)[|Beats(ops)| - 1]
    requires |Beats(ops)| == Distance(r, r.backoffs[p].slot) + 1
    ensures r.index < |r.slots| && Hit(r, tm, ops, p, |Beats(ops)| - 1)
  {
    hide Consistent, Beats;
    ConsistentPair(r, p);
    FirstVisit(r, r.backoffs[p].slot, |Beats(ops)| - 1);
  }

  lemma StoredAt(r: Ring, p: Pair, d: Deadline)
    requires r.index < |r.slots| && d.slot < |r.slots| && (p in r.backoffs ==> r.backoffs[p].slot < |r.slots|)
    ensures var r' := Stored(r, p, d);
      && p in r'.backoffs && r'.backoffs[p] == d && r'.index < |r'.slots| == |r.slots|
      && Distance(r', d.slot) == Distance(r, d.slot)
  {
  }

  /** The last of that many heartbeats comes after deadline and slack. */
  lemma LateEnough(tm: Timing, now: nat, time: nat, times: seq<nat>)
    requires tm.interval > 0 && Apart(times, tm.interval) && times != [] && times[0] >= now
    requires |times| == Heartbeats(time, tm.interval) + tm.slackBeats + 1
    ensures now + time + tm.Slack() <= times[|times| - 1]
  {
    hide Heartbeats, Apart;
    var h := Heartbeats(time, tm.interval);
    LastIsLate(times, tm.interval, now);
    HeartbeatsSpec(time, tm.interval);
    Distribute(h, tm.slackBeats, tm.interval);
  }

  lemma Distribute(a: int, b: int, w: int)
    ensures (a + b) * w == a * w + w * b
  {
  }

  // ----- the storage -----

  class Storage {
    var backoffs: map<Pair, Deadline>
    var slots: seq<set<Pair>>
    var index: nat
    const interval: nat
    const slackBeats: nat

    ghost function Value(): (r: Ring)
      reads this
    {
      Ring(backoffs, slots, index)
    }

    function Clock(): (tm: Timing) { Timing(interval, slackBeats) }

    ghost predicate Valid()
      reads this
    {
      Consistent(Value()) && interval > 0
    }

    constructor (pruneBackoff: nat, interval: nat, slackBeats: nat)
      requires interval > 0
      ensures Valid() && backoffs == map[] && index == 0 && this.interval == interval && this.slackBeats == slackBeats
      ensures |slots| == RingLength(pruneBackoff, interval, slackBeats)
    {
      this.interval, this.slackBeats := interval, slackBeats;
      backoffs, index := map[], 0;
      slots := seq(RingLength(pruneBackoff, interval, slackBeats), i => {});
    }

    /** update_backoff at instant now: a later deadline replaces the stored one, an earlier one is ignored. */
    method UpdateBackoff(topic: Topic, peer: Peer, now: nat, time: nat)
      requires Valid()
      modifies this`backoffs, this`slots
      ensures Valid()
      ensures Value() == Updated(old(Value()), Clock(), (topic, peer), now, time)
      ensures (topic, peer) in backoffs && backoffs[(topic, peer)].time >= now + time
      ensures backoffs[(topic, peer)].time ==
        if (topic, peer) in old(backoffs) && old(backoffs)[(topic, peer)].time > now + time then old(backoffs)[(topic, peer)].time
        else now + time
      ensures backoffs.Keys == old(backoffs).Keys + {(topic, peer)}
      ensures forall q :: q in old(backoffs) && q != (topic, peer) ==> q in backoffs && backoffs[q] == old(backoffs)[q]
      ensures forall q :: q in old(backoffs) ==> q in backoffs && backoffs[q].time >= old(backoffs)[q].time
    {
      hide Consistent, Heartbeats;
      var p := (topic, peer);
      ghost var r := Value();
      ConsistentIndex(r);
      StorablePair(r, p);
      ghost var d := Assigned(r, interval, slackBeats, now, time);
      StoredConsistent(r, p, d);
      if p in backoffs {
        if backoffs[p].time < now + time {
          slots := slots[backoffs[p].slot := slots[backoffs[p].slot] - {p}];
          var i := InsertIntoSlot(p, time);
          backoffs := backoffs[p := Deadline(now + time, i)];
        }
      } else {
        var i := InsertIntoSlot(p, time);
        backoffs := backoffs[p := Deadline(now + time, i)];
      }
    }

    /** The closure of update_backoff: inserts the pair into the slot that many heartbeats ahead. */
    method InsertIntoSlot(p: Pair, time: nat) returns (i: nat)
      requires interval > 0 && |slots| > 0
      modifies this`slots
      ensures i == (index + Heartbeats(time, interval) + slackBeats) % |old(slots)|
      ensures slots == old(slots)[i := old(slots)[i] + {p}]
    {
      hide Heartbeats;
      i := (index + Heartbeats(time, interval) + slackBeats) % |slots|;
      slots := slots[i := slots[i] + {p}];
    }

    /** is_backoff_with_slack. */
    predicate IsBackoffWithSlack(topic: Topic, peer: Peer)
      reads this
    {
      (topic, peer) in backoffs
    }

    /** The retain loop of heartbeat over one slot's pairs. */
    method Retain(slot: set<Pair>, slack: nat, now: nat) returns (kept: set<Pair>)
      modifies this`backoffs
      ensures kept == slot - Over(old(backoffs), slot, slack, now)
      ensures backoffs == old(backoffs) - Over(old(backoffs), slot, slack, now)
    {
      hide Over, Retained;
      var pending := slot;
      kept := {};
      ghost var all, over := backoffs, Over(backoffs, slot, slack, now);
      RetainedFirst(all, slot, over);
      while pending != {}
        invariant pending <= slot && Retained(all, slot, over, pending, kept, backoffs)
        decreases |pending|
      {
        var p :| p in pending;
        RetainedStep(all, slot, over, pending, kept, backoffs, p);
        OverMember(all, slot, slack, now, p);
        pending := pending - {p};
        if p in backoffs && backoffs[p].time + slack > now {
          kept := kept + {p};
        } else {
          backoffs := backoffs - {p};
        }
      }
      RetainedLast(all, slot, over, kept, backoffs);
    }

    /** heartbeat at instant now. */
    method Heartbeat(now: nat)
      requires Valid()
      modifies this
      ensures Valid() && Value() == Ticked(old(Value()), Clock().Slack(), now)
      ensures forall q :: q in backoffs ==> q in old(backoffs) && backoffs[q] == old(backoffs)[q]
      ensures forall q :: q in old(backoffs) && q !in backoffs ==> old(backoffs)[q].time + Clock().Slack() <= now
    {
      hide Consistent;
      ghost var r := Value();
      var slack := interval * slackBeats;
      ConsistentIndex(r);
      TickedConsistent(r, slack, now);
      var kept := Retain(slots[index], slack, now);
      slots := slots[index := kept];
      index := (index + 1) % |slots|;
    }

    /**
     Any sequence of updates and heartbeats. Whoever was backed off is still so while no heartbeat has come after the deadline
     plus slack.
     */
    method Perform(ops: seq<Op>)
      requires Valid()
      modifies this
      ensures Valid() && Value() == Run(old(Value()), Clock(), ops)
      ensures forall p :: p in old(backoffs) && AllBefore(Beats(ops), old(backoffs)[p].time + Clock().Slack()) ==>
        IsBackoffWithSlack(p.0, p.1) && backoffs[p].time >= old(backoffs)[p].time
    {
      hide Consistent, Updated, Ticked, Held, Beats, AllBefore;
      ghost var r := Value();
      assert ops[..0] == [];
      for i := 0 to |ops|
        invariant Valid() && Value() == Run(r, Clock(), ops[..i])
      {
        assert ops[..i + 1][..i] == ops[..i];
        match ops[i]
        case Beat(now) => Heartbeat(now);
        case Update(p, now, time) => UpdateBackoff(p.0, p.1, now, time);
      }
      assert ops[..|ops|] == ops;
      forall p | p in r.backoffs && AllBefore(Beats(ops), r.backoffs[p].time + Clock().Slack())
        ensures p in backoffs && backoffs[p].time >= r.backoffs[p].time
      {
        NeverDroppedEarly(r, Clock(), ops, p);
      }
    }
  }

  /** The pairs of a set whose deadline and slack are over, or that have no deadline. */
  ghost function Over(backoffs: map<Pair, Deadline>, s: set<Pair>, slack: nat, now: nat): (r: set<Pair>)
    ensures r <= s
  {
    set p | p in s && (p in backoffs ==> backoffs[p].time + slack <= now)
  }

  lemma OverMember(backoffs: map<Pair, Deadline>, s: set<Pair>, slack: nat, now: nat, p: Pair)
    requires p in s
    ensures p in Over(backoffs, s, slack, now) <==> !(p in backoffs && backoffs[p].time + slack > now)
  {
  }

  /** The retain loop with some pairs of the slot still pending. */
  ghost predicate Retained(all: map<Pair, Deadline>, slot: set<Pair>, over: set<Pair>, pending: set<Pair>,
                           kept: set<Pair>, left: map<Pair, Deadline>) {
    && kept == (slot - pending) - over
    && left.Keys == all.Keys - (over - pending) && forall q :: q in left ==> left[q] == all[q]
  }

  lemma RetainedFirst(all: map<Pair, Deadline>, slot: set<Pair>, over: set<Pair>)
    requires over <= slot
    ensures Retained(all, slot, over, slot, {}, all)
  {
    assert over - slot == {};
  }

  lemma RetainedStep(all: map<Pair, Deadline>, slot: set<Pair>, over: set<Pair>, pending: set<Pair>,
                     kept: set<Pair>, left: map<Pair, Deadline>, p: Pair)
    requires pending <= slot && p in pending && Retained(all, slot, over, pending, kept, left)
    ensures p in left <==> p in all
    ensures p in left ==> left[p] == all[p]
    ensures p in over ==> Retained(all, slot, over, pending - {p}, kept, left - {p})
    ensures p !in over ==> Retained(all, slot, over, pending - {p}, kept + {p}, left)
  {
    if p in over {
      assert over - (pending - {p}) == (over - pending) + {p};
    } else {
      assert over - (pending - {p}) == over - pending;
    }
  }

  lemma RetainedLast(all: map<Pair, Deadline>, slot: set<Pair>, over: set<Pair>, kept: set<Pair>, left: map<Pair, Deadline>)
    requires Retained(all, slot, over, {}, kept, left)
    ensures kept == slot - over && left == all - over
  {
    assert over - {} == over && slot - {} == slot;
  }
}
