/** The outbound queue of handler.rs: a byte cap kept by shedding, bulk before control and oldest first. */
module SendQueue {

  const MAX_BYTES: nat := 8 * 1024 * 1024
  const MAX_STUCK_SHEDS: nat := 2048
  const U32_MAX: nat := 0xFFFF_FFFF

  /** An encoded RPC: whether it carries a payload (bulk) or control only, and its length. */
  datatype Rpc = Rpc(payload: int, bulk: bool, len: nat)

  /** What is queued: bulk is a publish or forward of one message, which is never encoded in zero bytes. */
  type Queued = r: Rpc | r.bulk ==> r.len > 0 witness Rpc(0, false, 0)

  function Total(q: seq<Rpc>): (n: nat) { if q == [] then 0 else q[0].len + Total(q[1..]) }

  function BulkTotal(q: seq<Rpc>): (n: nat) { if q == [] then 0 else (if q[0].bulk then q[0].len else 0) + BulkTotal(q[1..]) }

  /** The bulk, or the control, RPCs of a queue in order. */
  function Only(q: seq<Rpc>, bulk: bool): (r: seq<Rpc>)
  {
    if q == [] then [] else (if q[0].bulk == bulk then [q[0]] else []) + Only(q[1..], bulk)
  }

  ghost predicate Subsequence(s: seq<Rpc>, t: seq<Rpc>)
  {
    if s == [] then true
    else if t == [] then false
    else (s[0] == t[0] && Subsequence(s[1..], t[1..])) || Subsequence(s, t[1..])
  }

  ghost predicate Suffix(s: seq<Rpc>, t: seq<Rpc>) { |s| <= |t| && s == t[|t| - |s|..] }

  // ----- the two passes -----

  /** Pass 1: going front to back, bulk RPCs are dropped while the total is over the cap. */
  function DropBulk(q: seq<Rpc>, bytes: int): (r: seq<Rpc>)
  {
    if q == [] then []
    else if bytes > MAX_BYTES && q[0].bulk then DropBulk(q[1..], bytes - q[0].len)
    else [q[0]] + DropBulk(q[1..], bytes)
  }

  /** Pass 2: the front is dropped while the total is over the cap. */
  function DropFront(q: seq<Rpc>): (r: seq<Rpc>)
    ensures Total(r) <= MAX_BYTES
  {
    if Total(q) > MAX_BYTES then DropFront(q[1..]) else q
  }

  function Shed(q: seq<Rpc>): (r: seq<Rpc>)
    ensures Total(r) <= MAX_BYTES
  {
    DropFront(PassOne(q))
  }

  // ----- subsequences and suffixes -----

  lemma {:induction false} SubsequenceRefl(s: seq<Rpc>)
    ensures Subsequence(s, s)
  {
    if s != [] {
      SubsequenceRefl(s[1..]);
    }
  }

  lemma {:induction false} SubsequenceTail(s: seq<Rpc>, t: seq<Rpc>)
    requires s != [] && Subsequence(s, t)
    ensures Subsequence(s[1..], t)
  {
    if !(s[0] == t[0] && Subsequence(s[1..], t[1..])) {
      SubsequenceTail(s, t[1..]);
    } else if s[1..] != [] {
      assert Subsequence(s[1..], t[1..]);
    }
  }

  lemma {:induction false} SubsequenceTrans(s: seq<Rpc>, t: seq<Rpc>, u: seq<Rpc>)
    requires Subsequence(s, t) && Subsequence(t, u)
    ensures Subsequence(s, u)
    decreases |t| + |u|
  {
    if s != [] {
      if t[0] == u[0] && Subsequence(t[1..], u[1..]) {
        if s[0] == t[0] && Subsequence(s[1..], t[1..]) {
          SubsequenceTrans(s[1..], t[1..], u[1..]);
        } else {
          SubsequenceTrans(s, t[1..], u[1..]);
        }
      } else {
        SubsequenceTrans(s, t, u[1..]);
      }
    }
  }

  /** A common front, and a common end, do not matter. */
  lemma {:induction false} SubsequencePrepend(p: seq<Rpc>, s: seq<Rpc>, t: seq<Rpc>)
    requires Subsequence(s, t)
    ensures Subsequence(p + s, p + t)
  {
    if p == [] {
      assert p + s == s && p + t == t;
    } else {
      SubsequencePrepend(p[1..], s, t);
      assert (p + s)[1..] == p[1..] + s && (p + t)[1..] == p[1..] + t;
    }
  }

  lemma {:induction false} SubsequenceAppend(s: seq<Rpc>, t: seq<Rpc>, e: seq<Rpc>)
    requires Subsequence(s, t)
    ensures Subsequence(s + e, t + e)
  {
    if s == [] {
      assert s + e == e;
      SkipFront(t, e);
    } else {
      assert (s + e)[1..] == s[1..] + e && (t + e)[1..] == t[1..] + e;
      if s[0] == t[0] && Subsequence(s[1..], t[1..]) {
        SubsequenceAppend(s[1..], t[1..], e);
      } else {
        SubsequenceAppend(s, t[1..], e);
      }
    }
  }

  lemma {:induction false} SkipFront(p: seq<Rpc>, e: seq<Rpc>)
    ensures Subsequence(e, p + e)
  {
    if p == [] {
      assert p + e == e;
      SubsequenceRefl(e);
    } else {
      SkipFront(p[1..], e);
      assert (p + e)[1..] == p[1..] + e;
    }
  }

  lemma {:induction false} SuffixTail(t: seq<Rpc>)
    requires t != []
    ensures Suffix(t[1..], t)
  {
  }

  lemma {:induction false} SuffixTrans(s: seq<Rpc>, t: seq<Rpc>, u: seq<Rpc>)
    requires Suffix(s, t) && Suffix(t, u)
    ensures Suffix(s, u)
  {
  }

  lemma {:induction false} TotalParts(q: seq<Rpc>)
    ensures Total(q) == BulkTotal(q) + Total(Only(q, false))
    ensures BulkTotal(q) == Total(Only(q, true))
  {
    if q != [] {
      TotalParts(q[1..]);
      OnlyStep(q, true);
      OnlyStep(q, false);
      var o := Only(q, q[0].bulk);
      assert o[0] == q[0] && o[1..] == Only(q[1..], q[0].bulk);
    }
  }

  lemma {:induction false} OnlyStep(q: seq<Rpc>, bulk: bool)
    requires q != []
    ensures Only(q, bulk) == if q[0].bulk == bulk then [q[0]] + Only(q[1..], bulk) else Only(q[1..], bulk)
  {
  }

  lemma {:induction false} TotalAppend(q: seq<Rpc>, x: Rpc)
    ensures Total(q + [x]) == Total(q) + x.len
    ensures BulkTotal(q + [x]) == BulkTotal(q) + if x.bulk then x.len else 0
  {
    if q == [] {
      assert q + [x] == [x];
    } else {
      TotalAppend(q[1..], x);
      assert (q + [x])[1..] == q[1..] + [x];
    }
  }

  // ----- what shedding keeps -----

  /** Pass 1 keeps all control, keeps the newest bulk, and if it ends over the cap it has dropped all bulk. */
  lemma {:induction false} DropBulkSpec(q: seq<Rpc>, bytes: int)
    ensures Only(DropBulk(q, bytes), false) == Only(q, false)
    ensures Suffix(Only(DropBulk(q, bytes), true), Only(q, true))
    ensures bytes - Total(q) + Total(DropBulk(q, bytes)) > MAX_BYTES ==> Only(DropBulk(q, bytes), true) == []
    ensures bytes <= MAX_BYTES ==> DropBulk(q, bytes) == q
  {
    hide Only, DropBulk, Total, Suffix;
    DropBulkEnds(q, bytes);
    NothingIsNothing();
    SuffixRefl(Only(q, true));
    if q != [] {
      var r := DropBulk(q, bytes);
      TotalStep(q);
      OnlyStep(q, true);
      OnlyStep(q, false);
      if bytes > MAX_BYTES && q[0].bulk {
        DropBulkSpec(q[1..], bytes - q[0].len);
        assert Only(q, true)[1..] == Only(q[1..], true);
        SuffixTail(Only(q, true));
        SuffixTrans(Only(r, true), Only(q[1..], true), Only(q, true));
      } else {
        DropBulkSpec(q[1..], bytes);
        assert r[1..] == DropBulk(q[1..], bytes);
        assert q == [q[0]] + q[1..];
        TotalStep(r);
        OnlyStep(r, true);
        OnlyStep(r, false);
      }
    }
  }

  lemma {:induction false} SuffixRefl(s: seq<Rpc>)
    ensures Suffix(s, s)
  {
  }

  lemma {:induction false} DropBulkInOrder(q: seq<Rpc>, bytes: int)
    ensures Subsequence(DropBulk(q, bytes), q)
  {
    if q != [] {
      if bytes > MAX_BYTES && q[0].bulk {
        DropBulkInOrder(q[1..], bytes - q[0].len);
      } else {
        DropBulkInOrder(q[1..], bytes);
        assert DropBulk(q, bytes)[1..] == DropBulk(q[1..], bytes);
      }
    }
  }

  lemma {:induction false} DropFrontSpec(q: seq<Rpc>)
    ensures Suffix(DropFront(q), q)
    ensures Total(q) <= MAX_BYTES ==> DropFront(q) == q
  {
    if Total(q) > MAX_BYTES {
      DropFrontSpec(q[1..]);
      SuffixTail(q);
      SuffixTrans(DropFront(q[1..]), q[1..], q);
    }
  }

  /** Pass 2 drops no more than it must: with one RPC more the queue would still be over the cap. */
  lemma {:induction false} DropFrontMinimal(q: seq<Rpc>)
    requires Total(q) > MAX_BYTES
    ensures |DropFront(q)| < |q| && Total(q[|q| - |DropFront(q)| - 1..]) > MAX_BYTES
  {
    if Total(q[1..]) > MAX_BYTES {
      DropFrontMinimal(q[1..]);
      var k := |DropFront(q)|;
      assert q[|q| - k - 1..] == q[1..][|q| - 1 - k - 1..];
    } else {
      assert DropFront(q) == q[1..];
      assert q[0..] == q;
    }
  }

  /** Pass 1 drops no more than it must: with the newest dropped bulk RPC back, the total would be over the cap. */
  lemma {:induction false} DropBulkMinimal(q: seq<Rpc>, bytes: int)
    ensures |Only(DropBulk(q, bytes), true)| <= |Only(q, true)|
    ensures var n := |Only(q, true)| - |Only(DropBulk(q, bytes), true)|;
      n > 0 ==> bytes - Total(q) + Total(DropBulk(q, bytes)) + Only(q, true)[n - 1].len > MAX_BYTES
  {
    hide Only, DropBulk, Total, Suffix;
    DropBulkEnds(q, bytes);
    NothingIsNothing();
    if q != [] {
      TotalStep(q);
      OnlyStep(q, true);
      if bytes > MAX_BYTES && q[0].bulk {
        DropBulkMinimal(q[1..], bytes - q[0].len);
        var b, b' := Only(q, true), Only(q[1..], true);
        var n := |b| - |Only(DropBulk(q, bytes), true)|;
        assert b == [q[0]] + b';
        if n == 1 {
          UntilUnder(q[1..], bytes - q[0].len);
        } else {
          assert b[n - 1] == b'[n - 2];
        }
      } else if q[0].bulk {
        DropBulkSpec(q, bytes);
      } else {
        DropBulkMinimal(q[1..], bytes);
        var r := DropBulk(q, bytes);
        assert r[0] == q[0] && r[1..] == DropBulk(q[1..], bytes);
        TotalStep(r);
        OnlyStep(r, true);
      }
    }
  }

  /** If pass 1 drops nothing it leaves the total alone. */
  lemma {:induction false} UntilUnder(q: seq<Rpc>, bytes: int)
    requires |Only(DropBulk(q, bytes), true)| == |Only(q, true)|
    ensures DropBulk(q, bytes) == q
  {
    hide Only, DropBulk;
    DropBulkEnds(q, bytes);
    if q != [] {
      OnlyStep(q, true);
      DropBulkMinimal(q[1..], bytes - q[0].len);
      if !(bytes > MAX_BYTES && q[0].bulk) {
        OnlyStep(DropBulk(q, bytes), true);
        assert DropBulk(q, bytes)[1..] == DropBulk(q[1..], bytes);
        UntilUnder(q[1..], bytes);
      }
    }
  }

  lemma {:induction false} SuffixOnly(s: seq<Rpc>, t: seq<Rpc>, bulk: bool)
    requires Suffix(s, t)
    ensures Suffix(Only(s, bulk), Only(t, bulk)) && Subsequence(s, t)
  {
    if |s| == |t| {
      assert s == t;
      SubsequenceRefl(s);
    } else {
      assert Suffix(s, t[1..]);
      SuffixOnly(s, t[1..], bulk);
      SuffixTrans(Only(s, bulk), Only(t[1..], bulk), Only(t, bulk));
    }
  }

  /**
   What a shed keeps: an in-order part of the queue under the cap, whose bulk is the newest bulk and whose control is the
   newest control; and control is dropped only when no bulk byte is left.
   */
  lemma {:induction false} ShedSpec(q: seq<Rpc>)
    ensures Subsequence(Shed(q), q)
    ensures Suffix(Only(Shed(q), true), Only(q, true)) && Suffix(Only(Shed(q), false), Only(q, false))
    ensures Only(Shed(q), false) != Only(q, false) ==> BulkTotal(Shed(q)) == 0
    ensures Total(q) <= MAX_BYTES ==> Shed(q) == q
  {
    hide Total, BulkTotal, Only, DropBulk, DropFront, Subsequence, Suffix;
    var p := PassOne(q);
    PassOneSpec(q);
    PassTwoSpec(p);
    SubsequenceTrans(DropFront(p), p, q);
    SuffixTrans(Only(DropFront(p), true), Only(p, true), Only(q, true));
    SuffixTrans(Only(DropFront(p), false), Only(p, false), Only(q, false));
    TotalParts(p);
    TotalParts(DropFront(p));
    SuffixTotal(Only(DropFront(p), true), Only(p, true));
  }

  function PassOne(q: seq<Rpc>): (r: seq<Rpc>)
  {
    if Total(q) > MAX_BYTES && BulkTotal(q) > 0 then DropBulk(q, Total(q)) else q
  }

  lemma {:induction false} PassOneSpec(q: seq<Rpc>)
    ensures Only(PassOne(q), false) == Only(q, false) && Suffix(Only(PassOne(q), true), Only(q, true))
    ensures Subsequence(PassOne(q), q)
    ensures Total(PassOne(q)) > MAX_BYTES ==> BulkTotal(PassOne(q)) == 0
    ensures Total(q) <= MAX_BYTES ==> PassOne(q) == q
  {
    hide Total, BulkTotal, Only, DropBulk, Subsequence;
    if Total(q) > MAX_BYTES && BulkTotal(q) > 0 {
      DropBulkSpec(q, Total(q));
      DropBulkInOrder(q, Total(q));
      TotalParts(PassOne(q));
      NothingIsNothing();
    } else {
      SubsequenceRefl(q);
    }
  }

  lemma {:induction false} PassTwoSpec(p: seq<Rpc>)
    ensures Subsequence(DropFront(p), p)
    ensures Suffix(Only(DropFront(p), true), Only(p, true)) && Suffix(Only(DropFront(p), false), Only(p, false))
    ensures Total(p) <= MAX_BYTES ==> DropFront(p) == p
  {
    hide Total, Only, DropFront, Subsequence, Suffix;
    DropFrontSpec(p);
    SuffixOnly(DropFront(p), p, true);
    SuffixOnly(DropFront(p), p, false);
  }

  lemma NothingIsNothing()
    ensures Total([]) == 0 && Only([], true) == Only([], false) == []
  {
  }

  lemma {:induction false} SuffixTotal(s: seq<Rpc>, t: seq<Rpc>)
    requires Suffix(s, t)
    ensures Total(s) <= Total(t)
  {
    if |s| < |t| {
      assert Suffix(s, t[1..]);
      SuffixTotal(s, t[1..]);
    } else {
      assert s == t;
    }
  }

  /** With bulk RPCs of positive length, no control RPC is dropped while any bulk remains. */
  lemma {:induction false} ControlOutlivesBulk(q: seq<Rpc>)
    requires forall i :: 0 <= i < |q| && q[i].bulk ==> q[i].len > 0
    ensures Only(Shed(q), false) != Only(q, false) ==> Only(Shed(q), true) == []
  {
    hide Shed, Total, BulkTotal, Only, Subsequence;
    ShedSpec(q);
    TotalParts(Shed(q));
    OnlyElements(q, true);
    if Only(Shed(q), true) != [] {
      PositiveTotal(Only(Shed(q), true));
    }
  }

  lemma {:induction false} OnlyElements(q: seq<Rpc>, bulk: bool)
    ensures forall i :: 0 <= i < |Only(q, bulk)| ==> Only(q, bulk)[i] in q && Only(q, bulk)[i].bulk == bulk
  {
    if q != [] {
      OnlyElements(q[1..], bulk);
    }
  }

  lemma {:induction false} PositiveTotal(s: seq<Rpc>)
    requires s != [] && s[0].len > 0
    ensures Total(s) > 0
  {
  }

  /** A remark on sharpness: with bulk of length zero, which is never queued, control would go before bulk. */
  lemma EmptyBulkOutlivesControl()
    ensures var q := [Rpc(0, false, MAX_BYTES + 1), Rpc(1, true, 0)];
      Only(Shed(q), true) != [] && Only(Shed(q), false) != Only(q, false)
  {
    var b := Rpc(1, true, 0);
    var q := [Rpc(0, false, MAX_BYTES + 1), b];
    assert q[1..] == [b] && [b][1..] == [];
    assert Total([b]) == 0 && BulkTotal([b]) == 0;
    assert Total(q) == MAX_BYTES + 1 && BulkTotal(q) == 0;
    assert DropFront([b]) == [b];
    assert Shed(q) == [b];
    assert Only([b], false) == [] && Only(q, false) == [q[0]] + [];
  }

  // ----- the handler -----

  /** saturating_add(1) on u32. */
  function SaturatingSuccessor(n: nat): (r: nat) { if n >= U32_MAX then U32_MAX else n + 1 }

  class Handler {
    var queue: seq<Queued>
    var bytes: int
    var bulkBytes: int
    var stuckSheds: nat
    var closing: bool
    /** All RPCs ever handed to queue_send while open, and all RPCs handed to the substream. */
    ghost var queued: seq<Queued>
    ghost var sent: seq<Queued>

    ghost predicate Valid()
      reads this
    {
      && bytes == Total(queue) <= MAX_BYTES && bulkBytes == BulkTotal(queue)
      && Subsequence(sent + queue, queued) && Newest(queue, queued)
      && (closing ==> queue == [])
      && stuckSheds <= U32_MAX && (stuckSheds >= MAX_STUCK_SHEDS ==> closing)
    }

    /** new. */
    constructor ()
      ensures Valid() && queue == queued == sent == [] && !closing
    {
      queue, bytes, bulkBytes, stuckSheds, closing := [], 0, 0, 0, false;
      queued, sent := [], [];
    }

    /** queue_send. */
    method QueueSend(rpc: Queued)
      requires Valid()
      modifies this
      ensures Valid() && sent == old(sent)
      ensures old(closing) ==> closing && queue == [] && queued == old(queued) && stuckSheds == old(stuckSheds)
      ensures !old(closing) ==> queued == old(queued) + [rpc]
      ensures !old(closing) && !closing ==> queue == Shed(old(queue) + [rpc])
      ensures !old(closing) && !closing ==> Only(queue, false) == Only(old(queue) + [rpc], false) || Only(queue, true) == []
      ensures !old(closing) ==> (closing <==> old(stuckSheds) + 1 == MAX_STUCK_SHEDS && Shed(old(queue) + [rpc]) != old(queue) + [rpc])
      ensures !old(closing) ==> stuckSheds == old(stuckSheds) + if Shed(old(queue) + [rpc]) != old(queue) + [rpc] then 1 else 0
    {
      hide Total, BulkTotal, Subsequence, Shed, Only, Suffix, Newest;
      if closing {
        return;
      }
      ghost var q := queue + [rpc];
      TotalAppend(queue, rpc);
      SurvivorsInOrder(sent, queue, queued, rpc);
      SurvivorsNewest(queue, queued, rpc);
      ControlOutlivesBulk(q);
      bytes := bytes + rpc.len;
      if rpc.bulk {
        bulkBytes := bulkBytes + rpc.len;
      }
      queue := queue + [rpc];
      queued := queued + [rpc];
      ShedQueue();
    }

    /** shed_send_queue. */
    method ShedQueue()
      requires bytes == Total(queue) && bulkBytes == BulkTotal(queue) && !closing && stuckSheds < MAX_STUCK_SHEDS
      modifies this`queue, this`bytes, this`bulkBytes, this`stuckSheds, this`closing
      ensures bytes == Total(queue) <= MAX_BYTES && bulkBytes == BulkTotal(queue)
      ensures !closing ==> queue == Shed(old(queue))
      ensures closing <==> old(stuckSheds) + 1 == MAX_STUCK_SHEDS && Shed(old(queue)) != old(queue)
      ensures closing ==> queue == []
      ensures stuckSheds == old(stuckSheds) + if Shed(old(queue)) != old(queue) then 1 else 0
    {
      hide DropBulk, Shed, BulkTotal, Total;
      ghost var q := queue;
      ShedCases(q);
      if bytes <= MAX_BYTES {
        return;
      }
      var dropped := 0;
      if bulkBytes > 0 {
        dropped := DropBulkPass();
      }
      ghost var p := queue;
      while bytes > MAX_BYTES && queue != []
        invariant bytes == Total(queue) && bulkBytes == BulkTotal(queue)
        invariant DropFront(queue) == DropFront(p) && dropped == |q| - |queue|
        invariant stuckSheds == old(stuckSheds) && !closing
        decreases |queue|
      {
        TotalStep(queue);
        var x := queue[0];
        queue := queue[1..];
        bytes := bytes - x.len;
        if x.bulk {
          bulkBytes := bulkBytes - x.len;
        }
        dropped := dropped + 1;
      }
      EmptyTotal(queue);
      assert queue == Shed(q);
      SameLengthSame(q);
      if dropped == 0 {
        return;
      }
      stuckSheds := SaturatingSuccessor(stuckSheds);
      if stuckSheds >= MAX_STUCK_SHEDS && !closing {
        closing := true;
        queue, bytes, bulkBytes := [], 0, 0;
        EmptyTotal(queue);
      }
    }

    /** The rebuild loop of pass 1. */
    method DropBulkPass() returns (dropped: int)
      requires bytes == Total(queue) && bulkBytes == BulkTotal(queue)
      modifies this`queue, this`bytes, this`bulkBytes
      ensures queue == DropBulk(old(queue), old(bytes)) && bytes == Total(queue) && bulkBytes == BulkTotal(queue)
      ensures dropped == |old(queue)| - |queue|
    {
      hide BulkTotal, Total, DropBulk;
      var q := queue;
      var kept: seq<Queued> := [];
      dropped := 0;
      DropBulkEnds(q, bytes);
      assert q[0..] == q;
      EmptyTotal([]);
      for i := 0 to |q|
        invariant kept + DropBulk(q[i..], bytes) == DropBulk(q, old(bytes))
        invariant bytes == Total(kept) + Total(q[i..]) && bulkBytes == BulkTotal(kept) + BulkTotal(q[i..])
        invariant dropped == i - |kept|
      {
        var x := q[i];
        assert q[i..][0] == x && q[i..][1..] == q[i + 1..];
        TotalStep(q[i..]);
        DropBulkEnds(q[i..], bytes);
        if bytes > MAX_BYTES && x.bulk {
          bytes := bytes - x.len;
          bulkBytes := bulkBytes - x.len;
          dropped := dropped + 1;
        } else {
          TotalAppend(kept, x);
          assert kept + ([x] + DropBulk(q[i + 1..], bytes)) == (kept + [x]) + DropBulk(q[i + 1..], bytes);
          kept := kept + [x];
        }
      }
      DropBulkEnds(q[|q|..], bytes);
      EmptyTotal(q[|q|..]);
      queue := kept;
    }

    /** The front-first drain of poll. */
    method Drain() returns (r: seq<Queued>)
      requires Valid()
      modifies this
      ensures Valid() && queued == old(queued) && closing == old(closing) && stuckSheds == old(stuckSheds)
      ensures r == old(queue)[..if old(queue) == [] then 0 else 1]
      ensures sent == old(sent) + r && old(queue) == r + queue
    {
      r := [];
      if queue != [] {
        hide Subsequence, Newest;
        NewestTail(queue, queued);
        assert sent + queue == (sent + [queue[0]]) + queue[1..];
        r := [queue[0]];
        bytes := bytes - queue[0].len;
        if queue[0].bulk {
          bulkBytes := bulkBytes - queue[0].len;
        }
        queue := queue[1..];
        sent := sent + r;
      }
    }

    /** A successful flush: the peer is draining. */
    method Flushed()
      requires Valid()
      modifies this`stuckSheds
      ensures Valid() && stuckSheds == 0
    {
      stuckSheds := 0;
    }

    /** Any sequence of sends, drains and flushes; once closing, nothing is queued or handed out any more. */
    method Perform(steps: seq<Step>) returns (out: seq<Queued>)
      requires Valid()
      modifies this
      ensures Valid() && sent == old(sent) + out && old(queued) <= queued
      ensures queued <= old(queued) + Sends(steps) && (!closing ==> queued == old(queued) + Sends(steps))
      ensures old(closing) ==> closing && out == [] && queued == old(queued)
    {
      hide Subsequence, Newest, Only, Total, BulkTotal, Shed;
      out := [];
      assert steps[..0] == [];
      for i := 0 to |steps|
        invariant Valid() && sent == old(sent) + out && old(queued) <= queued
        invariant queued <= old(queued) + Sends(steps[..i]) && (!closing ==> queued == old(queued) + Sends(steps[..i]))
        invariant old(closing) ==> closing && out == [] && queued == old(queued)
      {
        assert steps[..i + 1][..i] == steps[..i];
        match steps[i]
        case Send(rpc) => QueueSend(rpc);
        case Poll =>
          var r := Drain();
          out := out + r;
        case Flush => Flushed();
      }
      assert steps[..|steps|] == steps;
    }
  }

  datatype Step = Send(rpc: Queued) | Poll | Flush

  /** The RPCs handed in by a sequence of steps. */
  function Sends(steps: seq<Step>): (r: seq<Queued>)
  {
    if steps == [] then [] else
      var last := steps[|steps| - 1];
      Sends(steps[..|steps| - 1]) + if last.Send? then [last.rpc] else []
  }

  /** The bulk of a queue is the newest bulk of all that was queued, and its control the newest control. */
  ghost predicate Newest(queue: seq<Rpc>, queued: seq<Rpc>) {
    Suffix(Only(queue, true), Only(queued, true)) && Suffix(Only(queue, false), Only(queued, false))
  }

  lemma {:induction false} SurvivorsNewest(queue: seq<Rpc>, queued: seq<Rpc>, rpc: Rpc)
    requires Newest(queue, queued)
    ensures Newest(Shed(queue + [rpc]), queued + [rpc]) && Newest([], queued + [rpc])
  {
    hide Shed, Only, Subsequence, Suffix;
    var q, all := queue + [rpc], queued + [rpc];
    ShedSpec(q);
    NothingIsNothing();
    forall bulk ensures Suffix(Only(Shed(q), bulk), Only(all, bulk)) && Suffix([], Only(all, bulk)) {
      SuffixAppended(queue, queued, rpc, bulk);
      SuffixTrans(Only(Shed(q), bulk), Only(q, bulk), Only(all, bulk));
      SuffixEmpty(Only(all, bulk));
    }
  }

  lemma {:induction false} SuffixAppended(s: seq<Rpc>, t: seq<Rpc>, x: Rpc, bulk: bool)
    requires Suffix(Only(s, bulk), Only(t, bulk))
    ensures Suffix(Only(s + [x], bulk), Only(t + [x], bulk))
  {
    hide Only;
    OnlyAppend(s, x, bulk);
    OnlyAppend(t, x, bulk);
  }

  lemma {:induction false} SuffixEmpty(s: seq<Rpc>)
    ensures Suffix([], s)
  {
  }

  lemma {:induction false} NewestTail(queue: seq<Rpc>, queued: seq<Rpc>)
    requires queue != [] && Newest(queue, queued)
    ensures Newest(queue[1..], queued)
  {
    hide Only, Suffix, Subsequence;
    SuffixTail(queue);
    forall bulk ensures Suffix(Only(queue[1..], bulk), Only(queued, bulk)) {
      SuffixOnly(queue[1..], queue, bulk);
      SuffixTrans(Only(queue[1..], bulk), Only(queue, bulk), Only(queued, bulk));
    }
  }

  lemma {:induction false} OnlyAppend(q: seq<Rpc>, x: Rpc, bulk: bool)
    ensures Only(q + [x], bulk) == Only(q, bulk) + if x.bulk == bulk then [x] else []
  {
    if q == [] {
      assert q + [x] == [x];
    } else {
      OnlyAppend(q[1..], x, bulk);
      assert (q + [x])[1..] == q[1..] + [x];
    }
  }

  lemma {:induction false} SurvivorsInOrder(sent: seq<Rpc>, queue: seq<Rpc>, queued: seq<Rpc>, rpc: Rpc)
    requires Subsequence(sent + queue, queued)
    ensures Subsequence(sent + Shed(queue + [rpc]), queued + [rpc]) && Subsequence(sent + [], queued + [rpc])
  {
    hide Subsequence, Shed, Suffix;
    var q := queue + [rpc];
    SubsequenceAppend(sent + queue, queued, [rpc]);
    assert sent + queue + [rpc] == sent + q;
    ShedSpec(q);
    SubsequencePrepend(sent, Shed(q), q);
    SubsequenceTrans(sent + Shed(q), sent + q, queued + [rpc]);
    SubsequenceNothing(sent, Shed(q), queued + [rpc]);
  }

  /** RPCs on their way out at the start of a shed are not touched by it, even when the queue is abandoned. */
  lemma {:induction false} SubsequenceNothing(sent: seq<Rpc>, s: seq<Rpc>, queued: seq<Rpc>)
    requires Subsequence(sent + s, queued)
    ensures Subsequence(sent + [], queued)
  {
    hide Subsequence;
    NothingBefore(s);
    SubsequencePrepend(sent, [], s);
    SubsequenceTrans(sent + [], sent + s, queued);
  }

  lemma {:induction false} NothingBefore(s: seq<Rpc>)
    ensures Subsequence([], s)
  {
  }

  lemma {:induction false} ShedCases(q: seq<Rpc>)
    ensures Total(q) <= MAX_BYTES ==> Shed(q) == q
    ensures Total(q) > MAX_BYTES && BulkTotal(q) > 0 ==> Shed(q) == DropFront(DropBulk(q, Total(q)))
    ensures Total(q) > MAX_BYTES && BulkTotal(q) == 0 ==> Shed(q) == DropFront(q)
  {
    hide DropBulk, Total, BulkTotal;
  }

  lemma {:induction false} TotalStep(q: seq<Rpc>)
    requires q != []
    ensures Total(q) == q[0].len + Total(q[1..])
    ensures BulkTotal(q) == (if q[0].bulk then q[0].len else 0) + BulkTotal(q[1..])
  {
  }

  lemma {:induction false} EmptyTotal(q: seq<Rpc>)
    ensures q == [] ==> Total(q) == 0 && BulkTotal(q) == 0
  {
  }

  lemma {:induction false} DropBulkEnds(q: seq<Rpc>, bytes: int)
    ensures q == [] ==> DropBulk(q, bytes) == []
    ensures q != [] && bytes > MAX_BYTES && q[0].bulk ==> DropBulk(q, bytes) == DropBulk(q[1..], bytes - q[0].len)
    ensures q != [] && !(bytes > MAX_BYTES && q[0].bulk) ==> DropBulk(q, bytes) == [q[0]] + DropBulk(q[1..], bytes)
  {
  }

  /** A shed that drops nothing leaves the queue as it was. */
  lemma {:induction false} SameLengthSame(q: seq<Rpc>)
    ensures |Shed(q)| <= |q| && (|Shed(q)| == |q| ==> Shed(q) == q)
  {
    hide Shed, Subsequence;
    ShedSpec(q);
    SubsequenceLength(Shed(q), q);
  }

  lemma {:induction false} SubsequenceLength(s: seq<Rpc>, t: seq<Rpc>)
    requires Subsequence(s, t)
    ensures |s| <= |t| && (|s| == |t| ==> s == t)
  {
    if s != [] {
      if s[0] == t[0] && Subsequence(s[1..], t[1..]) {
        SubsequenceLength(s[1..], t[1..]);
        assert s == [s[0]] + s[1..] && t == [t[0]] + t[1..];
      } else {
        SubsequenceLength(s, t[1..]);
      }
    }
  }
}
