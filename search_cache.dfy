/** The search cache of the Node.js front ends: earlier search responses
    kept under numeric query ids, and `newId`, which hands out the next id
    not in use.  Both demo/qbic-node/donkey.js and webserver/donkey.js
    attach the same `newId` to their cache. */
module SearchCache {
  import opened Wrappers

  /** The cache as a value: its entries and the last id handed out (`cur`,
      0 before the first newId, where JavaScript holds undefined). */
  datatype Store<R> = Store(entries: map<nat, R>, cur: nat)

  /** The number of keys at or above `from`; it bounds the probing loop. */
  function Above(keys: set<nat>, from: nat): nat {
    |set k | k in keys && k >= from|
  }

  lemma AboveStep(keys: set<nat>, from: nat)
    requires from in keys
    ensures Above(keys, from + 1) < Above(keys, from)
  {
    var a := set k | k in keys && k >= from;
    var b := set k | k in keys && k >= from + 1;
    assert b == a - {from};
  }

  /** The least id at or above `from` that is not a key. */
  function FirstFree(keys: set<nat>, from: nat): (r: nat)
    ensures r >= from && r !in keys
    ensures forall k :: from <= k < r ==> k in keys
    decreases Above(keys, from)
  {
    if from in keys then
      AboveStep(keys, from);
      FirstFree(keys, from + 1)
    else from
  }

  /** newId on a cache value: the id handed out and the cache after it. */
  function Issue<R>(s: Store<R>): (nat, Store<R>) {
    var id := FirstFree(s.entries.Keys, s.cur + 1);
    (id, s.(cur := id))
  }

  /** The id newId hands out is not in use, is above every id handed out
      before, and the entries stay as they were. */
  lemma IssueFresh<R>(s: Store<R>)
    ensures Issue(s).0 !in s.entries && Issue(s).0 > s.cur
    ensures Issue(s).1.entries == s.entries && Issue(s).1.cur == Issue(s).0
  {
  }

  /** Every key was handed out by newId: it lies in 1 .. cur. */
  predicate Issued<R>(s: Store<R>) {
    forall k :: k in s.entries ==> 1 <= k <= s.cur
  }

  /** While every key came from newId, newId never probes: ids come out as
      1, 2, 3, ... */
  lemma IssueNext<R>(s: Store<R>)
    requires Issued(s)
    ensures Issue(s).0 == s.cur + 1 && Issued(Issue(s).1)
  {
  }

  /** searchCache.get: the response kept under the id, if there is one. */
  function Lookup<R>(entries: map<nat, R>, id: Option<nat>): Option<R> {
    if id.Some? && id.value in entries then Some(entries[id.value]) else None
  }

  /** The cache object: `entries` are the LRU cache's contents, `cur` the
      field newId keeps on it. */
  class Cache<R> {
    var entries: map<nat, R>
    var cur: nat

    ghost function Contents(): Store<R>
      reads this
    {
      Store(entries, cur)
    }

    /** A new, empty cache: `LRU(searchCacheSize)`. */
    constructor ()
      ensures Contents() == Store(map[], 0)
    {
      entries := map[];
      cur := 0;
    }

    /** searchCache.newId: step cur (`this.cur + 1 || 1`, which is 1 while cur
        is undefined) and keep stepping while the cache has that key. */
    method NewId() returns (id: nat)
      modifies this
      ensures (id, Contents()) == Issue(old(Contents()))
    {
      cur := cur + 1;
      while cur in entries
        invariant entries == old(entries)
        invariant FirstFree(entries.Keys, cur) == FirstFree(entries.Keys, old(cur) + 1)
        decreases Above(entries.Keys, cur)
      {
        AboveStep(entries.Keys, cur);
        cur := cur + 1;
      }
      id := cur;
    }

    /** searchCache.set: keep the response under the id. */
    method Set(id: nat, r: R)
      modifies this
      ensures Contents() == old(Contents()).(entries := old(entries)[id := r])
    {
      entries := entries[id := r];
    }
  }
}
