/**
 Free lists threaded through the memory of the free items themselves, as pure facts about
 a memory, a bucket's free list and its owned blocks.
 */
module FreeLists {
  import opened Words
  import opened Buckets

  /** A bucket seen from outside: its free items in list order, and the size in use of every
      item that is handed out. */
  datatype BucketView = BucketView(free: seq<nat>, owned: map<nat, nat>)

  function Head(list: seq<nat>): nat {
    if list == [] then 0 else list[0]
  }

  ghost predicate AllDistinct(list: seq<nat>) {
    forall i, j :: 0 <= i < j < |list| ==> list[i] != list[j]
  }

  /** Items are either free or owned, never both; an owned item's size belongs in the bucket. */
  ghost predicate Partitioned(base: nat, b: nat, v: BucketView) {
    && b < BUCKETS_COUNT
    && AllDistinct(v.free)
    && (forall p :: p in v.free ==> IsItem(base, b, p) && p !in v.owned)
    && (forall p :: p in v.owned ==>
          IsItem(base, b, p) && 2 <= v.owned[p] <= BLOB_SIZE_MAX && BucketOf(v.owned[p]) == b)
    && (forall p: nat :: IsItem(base, b, p) ==> p in v.free || p in v.owned)
    && |v.free| + |v.owned| == Capacity(b)
  }

  /** Each free item's link word holds the address of the next one; the last holds NULL. */
  ghost predicate Linked(m: seq<byte>, list: seq<nat>) {
    && (forall i :: 0 <= i < |list| ==> list[i] + LINK_SIZE <= |m|)
    && (forall i :: 0 <= i < |list| ==> LinkAt(m, list[i]) == Head(list[i + 1..]))
  }

  /** The addresses met by following `n` links from `p`. */
  ghost function Walk(m: seq<byte>, p: nat, n: nat): seq<nat>
    decreases n
  {
    if n == 0 then [] else [p] + (if p + LINK_SIZE <= |m| then Walk(m, LinkAt(m, p), n - 1) else [])
  }

  /** Walking a bucket's links visits its free list, in order, and then reads NULL. */
  lemma {:induction false} WalkIsFreeList(m: seq<byte>, list: seq<nat>)
    requires Linked(m, list)
    ensures Walk(m, Head(list), |list|) == list
    ensures list != [] ==> LinkAt(m, list[|list| - 1]) == 0
  {
    if list != [] {
      var rest := list[1..];
      forall i | 0 <= i < |rest|
        ensures LinkAt(m, rest[i]) == Head(rest[i + 1..])
      {
        assert rest[i] == list[i + 1] && rest[i + 1..] == list[i + 2..];
      }
      WalkIsFreeList(m, rest);
      assert LinkAt(m, list[0]) == Head(list[0 + 1..]);
      assert list == [list[0]] + rest;
      assert list[|list| - 1 + 1..] == [];
    }
  }

  /** The bytes of an item that may be non-zero: its link word, or the part in use. */
  function InUse(v: BucketView, p: nat): nat {
    if p in v.owned && v.owned[p] > LINK_SIZE then v.owned[p] else LINK_SIZE
  }

  /** Outside link words and bytes in use, the bucket's items are zero. */
  ghost predicate Clean(m: seq<byte>, base: nat, b: nat, v: BucketView) {
    b < BUCKETS_COUNT &&
    forall p: nat :: IsItem(base, b, p) ==> ZeroIn(m, p + InUse(v, p), p + ItemSize(b))
  }

  // ---------- what the allocator's steps keep ----------

  lemma DropKeepsLinked(m: seq<byte>, list: seq<nat>)
    requires Linked(m, list) && list != []
    ensures Linked(m, list[1..])
    ensures LinkAt(m, list[0]) == Head(list[1..])
  {
    var rest := list[1..];
    forall i | 0 <= i < |rest|
      ensures rest[i] + LINK_SIZE <= |m| && LinkAt(m, rest[i]) == Head(rest[i + 1..])
    {
      assert rest[i] == list[i + 1] && rest[i + 1..] == list[i + 2..];
    }
    assert LinkAt(m, list[0]) == Head(list[0 + 1..]);
  }

  /** Handing out the head of the list keeps the partition. */
  lemma TakeKeepsPartition(base: nat, b: nat, v: BucketView, size: nat)
    requires Partitioned(base, b, v) && v.free != []
    requires 2 <= size <= BLOB_SIZE_MAX && BucketOf(size) == b
    ensures Partitioned(base, b, BucketView(v.free[1..], v.owned[v.free[0] := size]))
  {
    var p := v.free[0];
    var v' := BucketView(v.free[1..], v.owned[p := size]);
    assert v.free == [p] + v'.free;
    assert p !in v.owned;
    assert v'.owned.Keys == v.owned.Keys + {p};
    forall q | q in v'.free
      ensures q in v.free && q != p
    {
    }
    forall q | IsItem(base, b, q)
      ensures q in v'.free || q in v'.owned
    {
      assert q in v.free || q in v.owned;
    }
  }

  /** Taking an owned item back keeps the partition. */
  lemma GiveKeepsPartition(base: nat, b: nat, v: BucketView, p: nat)
    requires Partitioned(base, b, v) && p in v.owned
    ensures Partitioned(base, b, BucketView([p] + v.free, v.owned - {p}))
  {
    var v' := BucketView([p] + v.free, v.owned - {p});
    assert v'.owned.Keys == v.owned.Keys - {p};
    assert |v'.owned| == |v.owned| - 1;
    forall q | IsItem(base, b, q)
      ensures q in v'.free || q in v'.owned
    {
      assert q in v.free || q in v.owned;
      if q in v.free {
        assert q in v'.free;
      } else if q == p {
        assert v'.free[0] == p;
      }
    }
  }

  lemma LinkFrame(m: seq<byte>, m': seq<byte>, lo: nat, hi: nat, q: nat)
    requires AgreeOutside(m, m', lo, hi) && q + LINK_SIZE <= |m| && (q + LINK_SIZE <= lo || hi <= q)
    ensures LinkAt(m', q) == LinkAt(m, q)
  {
    assert m[q..q + LINK_SIZE] == m'[q..q + LINK_SIZE];
  }

  /** Changing memory inside one item leaves every link of other free items alone. */
  lemma ChangeKeepsLinked(m: seq<byte>, m': seq<byte>, base: nat, b: nat, p: nat, c: nat, list: seq<nat>)
    requires IsItem(base, b, p) && AgreeOutside(m, m', p, p + ItemSize(b))
    requires Linked(m, list) && forall q :: q in list ==> IsItem(base, c, q) && q != p
    ensures Linked(m', list)
  {
    forall i | 0 <= i < |list|
      ensures LinkAt(m', list[i]) == Head(list[i + 1..])
    {
      var q := list[i];
      assert q in list;
      ItemsDisjoint(base, b, p, c, q);
      ItemInArena(base, c, q);
      LinkFrame(m, m', p, p + ItemSize(b), q);
    }
  }

  /** Changing memory inside one item, within the bytes in use afterwards, keeps every bucket clean. */
  lemma ChangeKeepsClean(m: seq<byte>, m': seq<byte>, base: nat, b: nat, p: nat, c: nat, v: BucketView, v': BucketView)
    requires IsItem(base, b, p) && AgreeOutside(m, m', p, p + ItemSize(b))
    requires Clean(m, base, c, v)
    requires forall q: nat :: q != p ==> InUse(v', q) == InUse(v, q)
    requires b == c ==> ZeroIn(m', p + InUse(v', p), p + ItemSize(b))
    ensures Clean(m', base, c, v')
  {
    forall q: nat | IsItem(base, c, q)
      ensures ZeroIn(m', q + InUse(v', q), q + ItemSize(c))
    {
      assert ZeroIn(m, q + InUse(v, q), q + ItemSize(c));
      if q == p {
        ItemHasOneBucket(base, b, c, p);
      } else {
        ItemsDisjoint(base, b, p, c, q);
        ZeroFrame(m, m', p, p + ItemSize(b), q + InUse(v, q), q + ItemSize(c));
      }
    }
  }

  lemma ZeroFrame(m: seq<byte>, m': seq<byte>, lo: nat, hi: nat, from: nat, to: nat)
    requires AgreeOutside(m, m', lo, hi) && ZeroIn(m, from, to) && (to <= lo || hi <= from)
    ensures ZeroIn(m', from, to)
  {
  }

  /** Pushing an item whose link word holds the old head keeps the list linked. */
  lemma PushKeepsLinked(m: seq<byte>, list: seq<nat>, p: nat)
    requires Linked(m, list) && p + LINK_SIZE <= |m| && LinkAt(m, p) == Head(list)
    ensures Linked(m, [p] + list)
  {
    var list' := [p] + list;
    forall i | 0 <= i < |list'|
      ensures list'[i] + LINK_SIZE <= |m| && LinkAt(m, list'[i]) == Head(list'[i + 1..])
    {
      if i > 0 {
        assert list'[i] == list[i - 1] && list'[i + 1..] == list[i..];
      } else {
        assert list'[1..] == list;
      }
    }
  }

  lemma PatchedAgrees(m: seq<byte>, p: nat, s: seq<byte>, lo: nat, hi: nat)
    requires p + |s| <= |m| && lo <= p && p + |s| <= hi
    ensures AgreeOutside(m, Patched(m, p, s), lo, hi)
  {
  }

  /** Writing the old head into an item and pushing it keeps the list linked. */
  lemma LinkIn(m: seq<byte>, base: nat, b: nat, list: seq<nat>, p: nat)
    requires IsItem(base, b, p) && p + LINK_SIZE <= p + ItemSize(b) <= |m| <= U64
    requires Linked(m, list) && forall q :: q in list ==> IsItem(base, b, q) && q != p
    ensures Linked(Patched(m, p, ToLe(Head(list), LINK_SIZE)), [p] + list)
  {
    assert Head(list) < U64;
    hide Linked, LinkAt, Patched, IsItem, ToLe, AgreeOutside;
    var m' := Patched(m, p, ToLe(Head(list), LINK_SIZE));
    PatchedAgrees(m, p, ToLe(Head(list), LINK_SIZE), p, p + ItemSize(b));
    ChangeKeepsLinked(m, m', base, b, p, b, list);
    PatchedLink(m, p, Head(list));
    PushKeepsLinked(m', list, p);
  }

  /** Writing a link word into an item whose link word is its only part in use keeps every bucket clean. */
  lemma LinkKeepsClean(m: seq<byte>, base: nat, b: nat, p: nat, link: nat, c: nat, v: BucketView, v': BucketView)
    requires IsItem(base, b, p) && p + LINK_SIZE <= p + ItemSize(b) <= |m|
    requires Clean(m, base, c, v) && forall q: nat :: q != p ==> InUse(v', q) == InUse(v, q)
    requires b == c ==> ZeroIn(m, p + LINK_SIZE, p + ItemSize(b))
    ensures Clean(Patched(m, p, ToLe(link, LINK_SIZE)), base, c, v')
  {
    ItemInArena(base, b, p);
    var m' := Patched(m, p, ToLe(link, LINK_SIZE));
    PatchedAgrees(m, p, ToLe(link, LINK_SIZE), p, p + ItemSize(b));
    ChangeKeepsClean(m, m', base, b, p, c, v, v');
  }
}
