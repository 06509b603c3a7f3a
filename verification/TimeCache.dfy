/**
 The expiring cache of time_cache.rs and the duplicate filter on top of it, refining a log of accepted inserts.
 The clock is a parameter of every call and never runs backwards.
 */
module TimeCache {

  /** A key and the instant it expires. */
  datatype Expiring<K> = Expiring(key: K, expires: nat)

  // ----- what the cache stands for -----

  /** An accepted insert: the key and when it happened. */
  datatype Accepted<K> = Accepted(key: K, time: nat)

  /** One of the last maxLen accepted inserts was of key and is not yet ttl old. */
  ghost predicate Recent<K>(log: seq<Accepted<K>>, maxLen: nat, ttl: nat, key: K, now: nat) {
    exists i :: 0 <= i < |log| && |log| - maxLen <= i && log[i].key == key && log[i].time + ttl > now
  }

  /** The list entries that the log from position j on leaves behind. */
  function Entries<K>(log: seq<Accepted<K>>, ttl: nat): (list: seq<Expiring<K>>)
    ensures |list| == |log|
  {
    seq(|log|, i requires 0 <= i < |log| => Expiring(log[i].key, log[i].time + ttl))
  }

  ghost predicate Sorted<K>(list: seq<Expiring<K>>) {
    forall i, j :: 0 <= i < j < |list| ==> list[i].expires <= list[j].expires
  }

  ghost predicate Distinct<K(!new)>(list: seq<Expiring<K>>) {
    forall i, j :: 0 <= i < j < |list| ==> list[i].key != list[j].key
  }

  /** The map with the keys and expiries of a list. */
  ghost function MapOf<K(!new)>(list: seq<Expiring<K>>): (m: map<K, nat>)
  {
    if list == [] then map[] else MapOf(list[1..])[list[0].key := list[0].expires]
  }

  /** start is where the live part of the log begins: all before is expired or pushed out. */
  ghost predicate Dropped<K>(log: seq<Accepted<K>>, start: nat, maxLen: nat, ttl: nat, now: nat) {
    start <= |log| && forall i :: 0 <= i < start ==> i < |log| - maxLen || log[i].time + ttl <= now
  }

  ghost predicate Past<K>(log: seq<Accepted<K>>, now: nat) { forall i :: 0 <= i < |log| ==> log[i].time <= now }

  /** list is what is left of the log, in order of expiry and without a key twice. */
  ghost predicate Live<K(!new)>(list: seq<Expiring<K>>, log: seq<Accepted<K>>, start: nat, maxLen: nat, ttl: nat, now: nat) {
    && Sorted(list) && Distinct(list) && Past(log, now)
    && Dropped(log, start, maxLen, ttl, now) && list == Entries(log[start..], ttl)
  }

  ghost predicate Unexpired<K>(list: seq<Expiring<K>>, now: nat) { forall i :: 0 <= i < |list| ==> list[i].expires > now }

  /** after is before without a front of entries that expire by now. */
  ghost predicate Pruned<K>(before: seq<Expiring<K>>, after: seq<Expiring<K>>, now: nat) {
    && |after| <= |before| && after == before[|before| - |after|..]
    && forall i :: 0 <= i < |before| - |after| ==> before[i].expires <= now
  }

  lemma PrunedNothing<K>(list: seq<Expiring<K>>, now: nat)
    ensures Pruned(list, list, now)
  {
  }

  lemma PrunedMore<K>(before: seq<Expiring<K>>, after: seq<Expiring<K>>, now: nat)
    requires Pruned(before, after, now) && after != [] && after[0].expires <= now
    ensures Pruned(before, after[1..], now)
  {
  }

  class Cache<K(==,!new)> {
    var entries: map<K, nat>
    var list: seq<Expiring<K>>
    const ttl: nat
    const maxLen: nat
    ghost var log: seq<Accepted<K>>
    ghost var start: nat
    ghost var clock: nat

    /** Map and list hold the same keys and expiries, and together what is left of the log. */
    ghost predicate Shape()
      reads this
    {
      entries == MapOf(list) && Live(list, log, start, maxLen, ttl, clock)
    }

    ghost predicate Valid()
      reads this
    {
      Shape() && |list| <= maxLen + 1
    }

    constructor (ttl: nat, maxLen: nat)
      ensures Valid() && log == [] && this.ttl == ttl && this.maxLen == maxLen && clock == 0
    {
      this.ttl, this.maxLen := ttl, maxLen;
      entries, list := map[], [];
      log, start, clock := [], 0, 0;
    }

    /** Takes the front element off both structures; a map entry that expires after limit would be left. */
    method PopFront(limit: nat)
      requires Shape() && list != [] && list[0].expires <= limit
      requires |list| > maxLen || list[0].expires <= clock
      modifies this`list, this`entries, this`start
      ensures Shape() && list == old(list)[1..]
    {
      hide Live, MapOf;
      PopLive(list, log, start, maxLen, ttl, clock);
      LiveDistinct(list, log, start, maxLen, ttl, clock);
      MapOfFirst(list);
      var e := list[0];
      list := list[1..];
      start := start + 1;
      if e.key in entries && entries[e.key] <= limit {
        entries := entries - {e.key};
      }
    }

    /** remove_expired_keys. */
    method RemoveExpiredKeys(now: nat)
      requires Shape() && clock <= now
      modifies this`list, this`entries, this`start, this`clock
      ensures Shape() && clock == now && Unexpired(list, now) && Pruned(old(list), list, now)
    {
      hide Live, MapOf, Pruned;
      PrunedNothing(list, now);
      LaterLive(list, log, start, maxLen, ttl, clock, now);
      clock := now;
      while list != [] && list[0].expires <= now
        invariant Shape() && clock == now && Pruned(old(list), list, now)
        decreases |list|
      {
        PrunedMore(old(list), list, now);
        PopFront(now);
      }
      AllUnexpired(list, log, start, maxLen, ttl, clock);
    }

    /** enforce_capacity. */
    method EnforceCapacity()
      requires Shape() && Unexpired(list, clock)
      modifies this`list, this`entries, this`start
      ensures Shape() && Unexpired(list, clock) && |list| <= |old(list)| && list == old(list)[|old(list)| - |list|..]
      ensures |list| == if |old(list)| > maxLen then maxLen else |old(list)|
    {
      hide Live, MapOf;
      LiveDistinct(list, log, start, maxLen, ttl, clock);
      MapSize(list);
      while |entries| > maxLen && list != []
        invariant Shape() && Unexpired(list, clock) && |entries| == |list|
        invariant |list| <= |old(list)| && list == old(list)[|old(list)| - |list|..]
        invariant |list| == |old(list)| || |list| >= maxLen
        decreases |list|
      {
        PopFront(list[0].expires);
        LiveDistinct(list, log, start, maxLen, ttl, clock);
        MapSize(list);
      }
    }

    /** entry: prune, then look the key up. */
    method Lookup(key: K, now: nat) returns (occupied: bool)
      requires Valid() && clock <= now
      modifies this`list, this`entries, this`start, this`clock
      ensures Valid() && clock == now && |list| <= maxLen
      ensures occupied == (key in entries) == Recent(log, maxLen, ttl, key, now)
    {
      hide Live, MapOf, Recent;
      RemoveExpiredKeys(now);
      EnforceCapacity();
      occupied := key in entries;
      LookupIsRecent(list, log, start, maxLen, ttl, key, now);
    }

    /** DuplicateCache::insert: true exactly for a key not recently accepted. */
    method Insert(key: K, now: nat) returns (added: bool)
      requires Valid() && clock <= now
      modifies this
      ensures Valid() && clock == now
      ensures added <==> !Recent(old(log), maxLen, ttl, key, now)
      ensures added <==>
        forall i :: 0 <= i < |old(log)| && |old(log)| - maxLen <= i && old(log)[i].key == key ==> now - old(log)[i].time >= ttl
      ensures log == if added then old(log) + [Accepted(key, now)] else old(log)
    {
      hide Live, MapOf;
      var occupied := Lookup(key, now);
      added := !occupied;
      if added {
        AppendLive(list, log, start, maxLen, ttl, key, now);
        MapOfAppend(list, key, now + ttl);
        list := list + [Expiring(key, now + ttl)];
        entries := entries[key := now + ttl];
        log := log + [Accepted(key, now)];
      }
    }

    /** contains: no pruning, so an expired key may still be reported. */
    method Contains(key: K) returns (r: bool)
      requires Valid()
      ensures r <==> exists i :: 0 <= i < |list| && list[i].key == key
    {
      MapOfKeys(list, key);
      r := key in entries;
    }
  }

  // ----- lists and maps -----

  lemma {:induction false} MapOfKeys<K(!new)>(list: seq<Expiring<K>>, key: K)
    ensures key in MapOf(list) <==> exists i :: 0 <= i < |list| && list[i].key == key
  {
    if list != [] {
      MapOfKeys(list[1..], key);
      if key in MapOf(list[1..]) {
        var i :| 0 <= i < |list[1..]| && list[1..][i].key == key;
        assert list[i + 1].key == key;
      }
      if exists i :: 0 < i < |list| && list[i].key == key {
        var i :| 0 < i < |list| && list[i].key == key;
        assert list[1..][i - 1].key == key;
      }
    }
  }

  lemma MapOfFirst<K(!new)>(list: seq<Expiring<K>>)
    requires list != [] && Distinct(list)
    ensures list[0].key in MapOf(list) && MapOf(list)[list[0].key] == list[0].expires
    ensures MapOf(list) - {list[0].key} == MapOf(list[1..]) && list[0].key !in MapOf(list[1..])
  {
    MapOfKeys(list[1..], list[0].key);
  }

  lemma {:induction false} MapSize<K(!new)>(list: seq<Expiring<K>>)
    requires Distinct(list)
    ensures |MapOf(list)| == |list|
  {
    hide MapOf;
    if list == [] {
      EmptyMap(list);
    } else {
      MapOfFirst(list);
      MapSize(list[1..]);
      var k, m, t := list[0].key, MapOf(list), MapOf(list[1..]);
      assert m.Keys == t.Keys + {k};
    }
  }

  lemma EmptyMap<K(!new)>(list: seq<Expiring<K>>)
    requires list == []
    ensures MapOf(list) == map[]
  {
  }

  lemma {:induction false} MapOfAppend<K(!new)>(list: seq<Expiring<K>>, key: K, expires: nat)
    requires key !in MapOf(list)
    ensures MapOf(list + [Expiring(key, expires)]) == MapOf(list)[key := expires]
  {
    var e := Expiring(key, expires);
    if list == [] {
      assert list + [e] == [e] && [e][1..] == [];
    } else {
      assert (list + [e])[1..] == list[1..] + [e] && (list + [e])[0] == list[0];
      MapOfAppend(list[1..], key, expires);
      assert key != list[0].key;
    }
  }

  // ----- the live part of the log -----

  lemma LiveDistinct<K(!new)>(list: seq<Expiring<K>>, log: seq<Accepted<K>>, start: nat, maxLen: nat, ttl: nat, now: nat)
    requires Live(list, log, start, maxLen, ttl, now)
    ensures Distinct(list)
  {
  }

  lemma LaterLive<K(!new)>(list: seq<Expiring<K>>, log: seq<Accepted<K>>, start: nat, maxLen: nat, ttl: nat, now: nat, later: nat)
    requires Live(list, log, start, maxLen, ttl, now) && now <= later
    ensures Live(list, log, start, maxLen, ttl, later)
  {
    hide Sorted, Distinct;
  }

  lemma PopLive<K(!new)>(list: seq<Expiring<K>>, log: seq<Accepted<K>>, start: nat, maxLen: nat, ttl: nat, now: nat)
    requires Live(list, log, start, maxLen, ttl, now) && list != [] && (|list| > maxLen || list[0].expires <= now)
    ensures Live(list[1..], log, start + 1, maxLen, ttl, now)
  {
    hide Entries;
    EntriesAt(log, start, ttl, 0);
    EntriesTail(log, start, ttl);
  }

  lemma EntriesTail<K(!new)>(log: seq<Accepted<K>>, start: nat, ttl: nat)
    requires start < |log|
    ensures Entries(log[start + 1..], ttl) == Entries(log[start..], ttl)[1..]
  {
  }

  lemma EntriesAt<K(!new)>(log: seq<Accepted<K>>, start: nat, ttl: nat, i: nat)
    requires start + i < |log|
    ensures Entries(log[start..], ttl)[i] == Expiring(log[start + i].key, log[start + i].time + ttl)
  {
  }

  lemma AllUnexpired<K(!new)>(list: seq<Expiring<K>>, log: seq<Accepted<K>>, start: nat, maxLen: nat, ttl: nat, now: nat)
    requires Live(list, log, start, maxLen, ttl, now) && (list == [] || list[0].expires > now)
    ensures Unexpired(list, now)
  {
    hide Distinct, Entries, Dropped;
  }

  /** After pruning and capping, membership in the map is recency in the log. */
  lemma LookupIsRecent<K(!new)>(list: seq<Expiring<K>>, log: seq<Accepted<K>>, start: nat, maxLen: nat, ttl: nat,
                         key: K, now: nat)
    requires Live(list, log, start, maxLen, ttl, now) && Unexpired(list, now) && |list| <= maxLen
    ensures key in MapOf(list) <==> Recent(log, maxLen, ttl, key, now)
  {
    hide MapOf, Sorted, Distinct, Entries;
    MapOfKeys(list, key);
    if key in MapOf(list) {
      var i :| 0 <= i < |list| && list[i].key == key;
      EntriesAt(log, start, ttl, i);
      assert log[start + i].key == key && log[start + i].time + ttl > now;
    }
    if Recent(log, maxLen, ttl, key, now) {
      var i :| 0 <= i < |log| && |log| - maxLen <= i && log[i].key == key && log[i].time + ttl > now;
      EntriesAt(log, start, ttl, i - start);
      assert list[i - start].key == key;
    }
  }

  lemma AppendLive<K(!new)>(list: seq<Expiring<K>>, log: seq<Accepted<K>>, start: nat, maxLen: nat, ttl: nat, key: K, now: nat)
    requires Live(list, log, start, maxLen, ttl, now) && key !in MapOf(list)
    ensures Live(list + [Expiring(key, now + ttl)], log + [Accepted(key, now)], start, maxLen, ttl, now)
  {
    hide MapOf, Entries;
    var e, a := Expiring(key, now + ttl), Accepted(key, now);
    EntriesAppend(log, start, ttl, a);
    MapOfKeys(list, key);
    forall i | 0 <= i < |list| ensures list[i].expires <= now + ttl {
      EntriesAt(log, start, ttl, i);
    }
  }

  lemma EntriesAppend<K(!new)>(log: seq<Accepted<K>>, start: nat, ttl: nat, a: Accepted<K>)
    requires start <= |log|
    ensures Entries((log + [a])[start..], ttl) == Entries(log[start..], ttl) + [Expiring(a.key, a.time + ttl)]
  {
    assert (log + [a])[start..] == log[start..] + [a];
  }
}
