/**
 Who owns which block: every block handed out by the allocator belongs to one table entry
 or to one caller that detached it, never to two.
 */
module Ownership {
  import opened Words
  import opened Types
  import opened Buckets
  import opened FreeLists
  import opened Balloc
  import opened LinearProbing

  /** The ids whose block lies in bucket `b`. */
  ghost function KeysIn(model: map<Key, Entry>, b: nat): set<Key> {
    set k | k in model && BucketOf(model[k].blk.size) == b
  }

  /** The detached blocks of bucket `b`. */
  ghost function DetachedIn(detached: map<nat, nat>, b: nat): set<nat> {
    set p | p in detached && BucketOf(detached[p]) == b
  }

  /** Conservation: bucket by bucket, what is handed out is held by the table or by callers. */
  ghost predicate Conserved(view: seq<BucketView>, model: map<Key, Entry>, detached: map<nat, nat>) {
    && |view| == BUCKETS_COUNT
    && forall b :: 0 <= b < BUCKETS_COUNT ==> |view[b].owned| == |KeysIn(model, b)| + |DetachedIn(detached, b)|
  }

  ghost predicate Owners(view: seq<BucketView>, model: map<Key, Entry>, detached: map<nat, nat>) {
    && Conserved(view, model, detached)
    && (forall k :: k in model ==> OwnedIn(view, model[k].blk))
    && (forall p :: p in detached ==> OwnedIn(view, Blk(p, detached[p])))
    && (forall j, k :: j in model && k in model && j != k ==> model[j].blk.data != model[k].blk.data)
    && (forall k :: k in model ==> model[k].blk.data !in detached)
  }

  ghost predicate AllPartitioned(base: nat, view: seq<BucketView>) {
    |view| == BUCKETS_COUNT && forall b :: 0 <= b < BUCKETS_COUNT ==> Partitioned(base, b, view[b])
  }

  /** A free item is owned by nobody, whatever size one asks with. */
  lemma FreeIsUnowned(base: nat, view: seq<BucketView>, b: nat, p: nat, blk: Blk)
    requires AllPartitioned(base, view) && b < BUCKETS_COUNT && p in view[b].free
    requires OwnedIn(view, blk)
    ensures blk.data != p
  {
    var c := BucketOf(blk.size);
    assert Partitioned(base, b, view[b]) && Partitioned(base, c, view[c]);
    if blk.data == p {
      ItemHasOneBucket(base, b, c, p);
    }
  }

  /** An owned address is owned with one size only. */
  lemma OwnedWithOneSize(base: nat, view: seq<BucketView>, blk: Blk, other: Blk)
    requires AllPartitioned(base, view) && OwnedIn(view, blk) && OwnedIn(view, other) && blk.data == other.data
    ensures blk == other
  {
    var b, c := BucketOf(blk.size), BucketOf(other.size);
    assert Partitioned(base, b, view[b]) && Partitioned(base, c, view[c]);
    ItemHasOneBucket(base, b, c, blk.data);
  }

  lemma EntryIsOwned(view: seq<BucketView>, model: map<Key, Entry>, detached: map<nat, nat>, id: Key)
    requires Owners(view, model, detached) && id in model
    ensures OwnedIn(view, model[id].blk) && model[id].blk.data !in detached
  {
  }

  lemma DetachedIsOwned(view: seq<BucketView>, model: map<Key, Entry>, detached: map<nat, nat>, blk: Blk)
    requires Owners(view, model, detached) && blk.data in detached && detached[blk.data] == blk.size
    ensures OwnedIn(view, blk)
  {
  }

  lemma NoOwners(view: seq<BucketView>)
    requires |view| == BUCKETS_COUNT && forall b :: 0 <= b < BUCKETS_COUNT ==> view[b].owned == map[]
    ensures Owners(view, map[], map[])
  {
    hide BucketOf;
    forall b | 0 <= b < BUCKETS_COUNT
      ensures KeysIn(map[], b) == {} && DetachedIn(map[], b) == {}
    {
    }
  }

  lemma AddKey(model: map<Key, Entry>, id: Key, e: Entry, b: nat)
    requires id !in model
    ensures |KeysIn(model[id := e], b)| == |KeysIn(model, b)| + if BucketOf(e.blk.size) == b then 1 else 0
  {
    hide BucketOf;
    assert KeysIn(model[id := e], b) == KeysIn(model, b) + if BucketOf(e.blk.size) == b then {id} else {};
  }

  lemma RemoveKey(model: map<Key, Entry>, id: Key, b: nat)
    requires id in model
    ensures |KeysIn(model - {id}, b)| == |KeysIn(model, b)| - if BucketOf(model[id].blk.size) == b then 1 else 0
  {
    hide BucketOf;
    assert KeysIn(model, b) == KeysIn(model - {id}, b) + if BucketOf(model[id].blk.size) == b then {id} else {};
  }

  lemma AddDetached(detached: map<nat, nat>, p: nat, size: nat, b: nat)
    requires p !in detached
    ensures |DetachedIn(detached[p := size], b)| == |DetachedIn(detached, b)| + if BucketOf(size) == b then 1 else 0
  {
    hide BucketOf;
    assert DetachedIn(detached[p := size], b) == DetachedIn(detached, b) + if BucketOf(size) == b then {p} else {};
  }

  lemma RemoveDetached(detached: map<nat, nat>, p: nat, b: nat)
    requires p in detached
    ensures |DetachedIn(detached - {p}, b)| == |DetachedIn(detached, b)| - if BucketOf(detached[p]) == b then 1 else 0
  {
    hide BucketOf;
    assert DetachedIn(detached, b) == DetachedIn(detached - {p}, b) + if BucketOf(detached[p]) == b then {p} else {};
  }

  /** Creating an entry for a freshly taken block. */
  lemma CreateKeepsOwners(base: nat, view: seq<BucketView>, model: map<Key, Entry>, detached: map<nat, nat>,
                          id: Key, until: uint32, size: nat)
    requires AllPartitioned(base, view) && Owners(view, model, detached)
    requires id !in model && view[BucketOf(size)].free != []
    ensures var blk := Blk(view[BucketOf(size)].free[0], size);
            Owners(Taken(view, size), model[id := Entry(until, blk)], detached)
  {
    hide BucketOf, KeysIn, DetachedIn, Partitioned, AllPartitioned;
    var i := BucketOf(size);
    var p := view[i].free[0];
    var e, view' := Entry(until, Blk(p, size)), Taken(view, size);
    var model' := model[id := e];
    HeadIsUnowned(base, view, i);
    GrowsByOne(view[i].owned, p, size);
    assert Conserved(view', model', detached) by {
      forall b | 0 <= b < BUCKETS_COUNT
        ensures |view'[b].owned| == |KeysIn(model', b)| + |DetachedIn(detached, b)|
      {
        AddKey(model, id, e, b);
      }
    }
    hide Conserved;
    TakenKeepsOwned(base, view, model, detached, size);
  }

  /** Whoever owned a block still owns it after another one was taken, and it is not that one. */
  lemma TakenKeepsOwned(base: nat, view: seq<BucketView>, model: map<Key, Entry>, detached: map<nat, nat>, size: nat)
    requires AllPartitioned(base, view) && Owners(view, model, detached) && view[BucketOf(size)].free != []
    ensures var view', p := Taken(view, size), view[BucketOf(size)].free[0];
            && OwnedIn(view', Blk(p, size))
            && (forall k :: k in model ==> OwnedIn(view', model[k].blk) && model[k].blk.data != p)
            && (forall q :: q in detached ==> OwnedIn(view', Blk(q, detached[q])) && q != p)
  {
    hide BucketOf, KeysIn, DetachedIn, Partitioned, Conserved;
    var i := BucketOf(size);
    var p, view' := view[i].free[0], Taken(view, size);
    HeadIsUnowned(base, view, i);
    forall k | k in model
      ensures OwnedIn(view', model[k].blk) && model[k].blk.data != p
    {
      FreeIsUnowned(base, view, i, p, model[k].blk);
    }
    forall q | q in detached
      ensures OwnedIn(view', Blk(q, detached[q])) && q != p
    {
      FreeIsUnowned(base, view, i, p, Blk(q, detached[q]));
    }
  }

  lemma HeadIsUnowned(base: nat, view: seq<BucketView>, b: nat)
    requires AllPartitioned(base, view) && b < BUCKETS_COUNT && view[b].free != []
    ensures view[b].free[0] in view[b].free && view[b].free[0] !in view[b].owned
  {
    assert Partitioned(base, b, view[b]);
  }

  lemma GrowsByOne(m: map<nat, nat>, p: nat, v: nat)
    requires p !in m
    ensures |m[p := v]| == |m| + 1
  {
    assert m[p := v].Keys == m.Keys + {p};
  }

  lemma ShrinksByOne(m: map<nat, nat>, p: nat)
    requires p in m
    ensures |m - {p}| == |m| - 1
  {
    assert m.Keys == (m - {p}).Keys + {p};
  }

  /** Publishing changes an entry's expiry, not its owner. */
  lemma PublishKeepsOwners(view: seq<BucketView>, model: map<Key, Entry>, detached: map<nat, nat>, id: Key, t: uint32)
    requires Owners(view, model, detached) && id in model
    ensures Owners(view, model[id := model[id].(until := t)], detached)
  {
    hide BucketOf, OwnedIn, DetachedIn, KeysIn;
    var model' := model[id := model[id].(until := t)];
    forall b | 0 <= b < BUCKETS_COUNT
      ensures KeysIn(model', b) == KeysIn(model, b)
    {
      SameKeysIn(model, id, t, b);
    }
  }

  lemma SameKeysIn(model: map<Key, Entry>, id: Key, t: uint32, b: nat)
    requires id in model
    ensures KeysIn(model[id := model[id].(until := t)], b) == KeysIn(model, b)
  {
    hide BucketOf;
  }

  /** Taking an entry out of the table leaves its block with the caller. */
  lemma DetachKeepsOwners(view: seq<BucketView>, model: map<Key, Entry>, detached: map<nat, nat>, id: Key)
    requires Owners(view, model, detached) && id in model
    ensures Owners(view, model - {id}, detached[model[id].blk.data := model[id].blk.size])
  {
    hide BucketOf, KeysIn, DetachedIn;
    var blk := model[id].blk;
    forall b | 0 <= b < BUCKETS_COUNT
      ensures |view[b].owned| == |KeysIn(model - {id}, b)| + |DetachedIn(detached[blk.data := blk.size], b)|
    {
      RemoveKey(model, id, b);
      AddDetached(detached, blk.data, blk.size, b);
    }
  }

  /** Giving a detached block back. */
  lemma GiveKeepsOwners(view: seq<BucketView>, model: map<Key, Entry>, detached: map<nat, nat>, p: nat)
    requires Owners(view, model, detached) && p in detached
    ensures Owners(Given(view, Blk(p, detached[p])), model, detached - {p})
  {
    hide BucketOf, KeysIn, DetachedIn;
    var blk := Blk(p, detached[p]);
    var i, view' := BucketOf(blk.size), Given(view, blk);
    ShrinksByOne(view[i].owned, p);
    forall b | 0 <= b < BUCKETS_COUNT
      ensures |view'[b].owned| == |KeysIn(model, b)| + |DetachedIn(detached - {p}, b)|
    {
      RemoveDetached(detached, p, b);
    }
    forall k | k in model
      ensures OwnedIn(view', model[k].blk)
    {
      assert model[k].blk.data != p;
    }
  }

  // ---------- the table never fills ----------

  ghost function KeysBelow(model: map<Key, Entry>, n: nat): set<Key> {
    set k | k in model && BucketOf(model[k].blk.size) < n
  }

  /** Entries whose blocks lie in the first `n` buckets are no more than those buckets' items. */
  lemma {:induction false} KeysFitCapacity(base: nat, view: seq<BucketView>, model: map<Key, Entry>,
                                           detached: map<nat, nat>, n: nat)
    requires AllPartitioned(base, view) && Owners(view, model, detached) && n <= BUCKETS_COUNT
    ensures |KeysBelow(model, n)| <= TotalCapacity(n)
  {
    hide BucketOf, Owners, AllPartitioned, Capacity, KeysIn;
    if n == 0 {
      assert KeysBelow(model, 0) == {};
    } else {
      KeysFitCapacity(base, view, model, detached, n - 1);
      KeysSplit(model, n - 1);
      BucketFits(base, view, model, detached, n - 1);
    }
  }

  lemma KeysSplit(model: map<Key, Entry>, n: nat)
    ensures |KeysBelow(model, n + 1)| == |KeysBelow(model, n)| + |KeysIn(model, n)|
  {
    hide BucketOf;
    assert KeysBelow(model, n + 1) == KeysBelow(model, n) + KeysIn(model, n);
  }

  lemma BucketFits(base: nat, view: seq<BucketView>, model: map<Key, Entry>, detached: map<nat, nat>, b: nat)
    requires AllPartitioned(base, view) && Owners(view, model, detached) && b < BUCKETS_COUNT
    ensures |KeysIn(model, b)| <= Capacity(b)
  {
    hide BucketOf, OwnedIn, Capacity, KeysIn, DetachedIn, IsItem;
    assert Partitioned(base, b, view[b]);
  }

  /** However the blocks are spread, the table holds at most 2^18 - 2^7 entries. */
  lemma EntriesAreBounded(base: nat, view: seq<BucketView>, model: map<Key, Entry>, detached: map<nat, nat>)
    requires AllPartitioned(base, view) && Owners(view, model, detached)
    ensures |model| <= 0x40000 - 128
  {
    hide Pow2, TotalCapacity, Owners, AllPartitioned, BucketOf;
    KeysFitCapacity(base, view, model, detached, BUCKETS_COUNT);
    TotalCapacityIs(BUCKETS_COUNT);
    assert KeysBelow(model, BUCKETS_COUNT) == model.Keys;
    Pow2Table();
    Pow2Of18();
  }

  lemma Pow2Of18()
    ensures Pow2(18) == 0x40000
  {
    Pow2Table();
    assert Pow2(18) == 2 * Pow2(17);
  }
}
