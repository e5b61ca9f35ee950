/**
 The bucket allocator of balloc.h, byte by byte: `mem` is the address space up to the end of
 the allocator's region, so an address is an index and NULL is 0. Free items carry the link
 to the next free item in their first eight bytes, the same bytes that later hold payload.
 */
module Balloc {
  import opened Words
  import opened Types
  import opened Buckets
  import opened FreeLists

  datatype Bucket = Bucket(nextFree: nat, arena: Blk, free: nat)

  /** A bucket header and the memory behind it agree with the bucket's view. */
  ghost predicate BucketOk(m: seq<byte>, base: nat, b: nat, bucket: Bucket, v: BucketView) {
    && Partitioned(base, b, v)
    && Linked(m, v.free)
    && bucket.free == |v.free|
    && bucket.nextFree == Head(v.free)
  }

  ghost predicate AllOk(m: seq<byte>, base: nat, buckets: seq<Bucket>, view: seq<BucketView>) {
    && |buckets| == BUCKETS_COUNT == |view|
    && forall b :: 0 <= b < BUCKETS_COUNT ==> BucketOk(m, base, b, buckets[b], view[b])
  }

  /** `blk` is handed out, with exactly this size. */
  ghost predicate OwnedIn(view: seq<BucketView>, blk: Blk) {
    && |view| == BUCKETS_COUNT
    && blk.data in view[BucketOf(blk.size)].owned
    && view[BucketOf(blk.size)].owned[blk.data] == blk.size
  }

  /** The bytes of a block in memory `m`. */
  function Slice(m: seq<byte>, blk: Blk): seq<byte> {
    if blk.data + blk.size <= |m| then m[blk.data..blk.data + blk.size] else []
  }

  /** Every owned block reads the same in both memories. */
  ghost predicate Kept(view: seq<BucketView>, m: seq<byte>, m': seq<byte>) {
    forall o: Blk :: OwnedIn(view, o) ==> Slice(m', o) == Slice(m, o)
  }

  /** Every owned block, except the one at `p`, reads the same in both memories. */
  ghost predicate KeptBut(view: seq<BucketView>, m: seq<byte>, m': seq<byte>, p: nat) {
    forall o: Blk :: OwnedIn(view, o) && o.data != p ==> Slice(m', o) == Slice(m, o)
  }

  ghost predicate AllClean(m: seq<byte>, base: nat, view: seq<BucketView>) {
    |view| == BUCKETS_COUNT && forall b :: 0 <= b < BUCKETS_COUNT ==> Clean(m, base, b, view[b])
  }

  /** All items of the first `n` places of bucket `b`, last one first: the list `binit` builds. */
  function Downward(base: nat, b: nat, n: nat): (list: seq<nat>)
    requires b < BUCKETS_COUNT
    ensures |list| == n
    ensures forall i :: 0 <= i < n ==> list[i] == Item(base, b, n - 1 - i)
  {
    if n == 0 then [] else [Item(base, b, n - 1)] + Downward(base, b, n - 1)
  }

  lemma ItemInjective(base: nat, b: nat, j: nat, k: nat)
    requires b < BUCKETS_COUNT && j < k
    ensures Item(base, b, j) < Item(base, b, k)
  {
    hide ItemSize;
    SizeIsPositive(b);
    MulAtMost(j + 1, k, ItemSize(b));
    NextMultiple(j, ItemSize(b));
  }

  lemma SizeIsPositive(b: nat)
    requires b < BUCKETS_COUNT
    ensures ItemSize(b) > 0
  {
  }

  lemma ItemStep(base: nat, b: nat, j: nat)
    requires b < BUCKETS_COUNT
    ensures Item(base, b, j + 1) == Item(base, b, j) + ItemSize(b)
    ensures Head(Downward(base, b, j + 1)) == Item(base, b, j)
  {
    NextMultiple(j, ItemSize(b));
  }

  lemma NothingLinked(m: seq<byte>, base: nat, b: nat)
    requires b < BUCKETS_COUNT
    ensures Downward(base, b, 0) == [] && Linked(m, []) && Item(base, b, 0) == base + b * ARENA
  {
  }

  lemma DownwardItems(base: nat, b: nat, j: nat)
    requires b < BUCKETS_COUNT && j < Capacity(b)
    ensures forall q :: q in Downward(base, b, j) ==> IsItem(base, b, q) && q != Item(base, b, j)
  {
    var list := Downward(base, b, j);
    forall q | q in list
      ensures IsItem(base, b, q) && q != Item(base, b, j)
    {
      var i :| 0 <= i < j && list[i] == q;
      ItemInjective(base, b, j - 1 - i, j);
      assert q == Item(base, b, j - 1 - i);
    }
  }

  lemma DownwardPartitions(base: nat, b: nat)
    requires b < BUCKETS_COUNT
    ensures Partitioned(base, b, BucketView(Downward(base, b, Capacity(b)), map[]))
  {
    var n := Capacity(b);
    var list := Downward(base, b, n);
    forall i, j | 0 <= i < j < n
      ensures list[i] != list[j]
    {
      ItemInjective(base, b, n - 1 - j, n - 1 - i);
    }
    forall p | p in list
      ensures IsItem(base, b, p)
    {
      var i :| 0 <= i < n && list[i] == p;
      assert p == Item(base, b, n - 1 - i);
    }
    forall p: nat | IsItem(base, b, p)
      ensures p in list
    {
      var j: nat :| j < n && p == Item(base, b, j);
      assert list[n - 1 - j] == p;
    }
  }

  ghost predicate Untouched(m: seq<byte>, base: nat) {
    forall c :: 0 <= c < BUCKETS_COUNT ==> Clean(m, base, c, BucketView([], map[]))
  }

  ghost predicate ListsBelow(m: seq<byte>, base: nat, b: nat)
    requires b <= BUCKETS_COUNT
  {
    forall c :: 0 <= c < b ==> Linked(m, Downward(base, c, Capacity(c)))
  }

  lemma ListsExtend(m: seq<byte>, base: nat, b: nat)
    requires b < BUCKETS_COUNT && ListsBelow(m, base, b) && Linked(m, Downward(base, b, Capacity(b)))
    ensures ListsBelow(m, base, b + 1)
  {
  }

  /** The headers of the first `n` buckets as `binit` leaves them. */
  ghost predicate HeadersBelow(buckets: seq<Bucket>, base: nat, n: nat) {
    && n <= |buckets| == BUCKETS_COUNT
    && forall b :: 0 <= b < n ==>
           buckets[b].free == Capacity(b) && buckets[b].nextFree == Head(Downward(base, b, Capacity(b)))
  }

  lemma HeadersExtend(buckets: seq<Bucket>, base: nat, n: nat, h: Bucket)
    requires HeadersBelow(buckets, base, n) && n < BUCKETS_COUNT
    requires h.free == Capacity(n) && h.nextFree == Head(Downward(base, n, Capacity(n)))
    ensures HeadersBelow(buckets[n := h], base, n + 1)
  {
  }

  /** Linking item `j` of bucket `b` in front of the items before it. */
  lemma InitKeepsLists(m: seq<byte>, base: nat, b: nat, p: nat, link: nat)
    requires b < BUCKETS_COUNT && IsItem(base, b, p) && p + LINK_SIZE <= p + ItemSize(b) <= |m|
    requires ListsBelow(m, base, b)
    ensures ListsBelow(Patched(m, p, ToLe(link, LINK_SIZE)), base, b)
  {
    var m' := Patched(m, p, ToLe(link, LINK_SIZE));
    PatchedAgrees(m, p, ToLe(link, LINK_SIZE), p, p + ItemSize(b));
    hide AgreeOutside, Linked, Downward, Patched, ToLe;
    forall c | 0 <= c < b
      ensures Linked(m', Downward(base, c, Capacity(c)))
    {
      DownwardPartitions(base, c);
      forall q | q in Downward(base, c, Capacity(c))
        ensures IsItem(base, c, q) && q != p
      {
        if q == p {
          ItemHasOneBucket(base, b, c, p);
        }
      }
      ChangeKeepsLinked(m, m', base, b, p, c, Downward(base, c, Capacity(c)));
    }
  }

  lemma InitKeepsUntouched(m: seq<byte>, base: nat, b: nat, p: nat, link: nat)
    requires b < BUCKETS_COUNT && IsItem(base, b, p) && p + LINK_SIZE <= p + ItemSize(b) <= |m|
    requires Untouched(m, base)
    ensures Untouched(Patched(m, p, ToLe(link, LINK_SIZE)), base)
  {
    var v := BucketView([], map[]);
    assert Clean(m, base, b, v);
    assert ZeroIn(m, p + InUse(v, p), p + ItemSize(b));
    forall c | 0 <= c < BUCKETS_COUNT
      ensures Clean(Patched(m, p, ToLe(link, LINK_SIZE)), base, c, v)
    {
      LinkKeepsClean(m, base, b, p, link, c, v, v);
    }
  }

  /** One step of the inner loop of `binit`. */
  lemma InitStep(m: seq<byte>, base: nat, b: nat, j: nat)
    requires b < BUCKETS_COUNT && j < Capacity(b) && base + BUCKETS_COUNT * ARENA <= |m| <= U64
    requires Untouched(m, base) && ListsBelow(m, base, b)
    requires Linked(m, Downward(base, b, j))
    ensures IsItem(base, b, Item(base, b, j)) && Item(base, b, j) + LINK_SIZE <= |m|
    ensures var m' := Patched(m, Item(base, b, j), ToLe(Head(Downward(base, b, j)), LINK_SIZE));
            Untouched(m', base) && ListsBelow(m', base, b) && Linked(m', Downward(base, b, j + 1))
  {
    var p, list := Item(base, b, j), Downward(base, b, j);
    assert IsItem(base, b, p);
    ItemInArena(base, b, p);
    assert Downward(base, b, j + 1) == [p] + list;
    hide *;
    InitKeepsLists(m, base, b, p, Head(list));
    InitKeepsUntouched(m, base, b, p, Head(list));
    DownwardItems(base, b, j);
    LinkIn(m, base, b, list, p);
  }

  class BucketAllocator {
    const base: nat
    const mem: array<byte>
    const buckets: array<Bucket>
    ghost var view: seq<BucketView>

    ghost predicate Shaped()
      reads this
    {
      && 0 < base && base + BUCKETS_COUNT * ARENA <= mem.Length <= U64
      && buckets.Length == BUCKETS_COUNT == |view|
    }

    ghost predicate Valid()
      reads this, mem, buckets
    {
      && Shaped()
      && AllOk(mem[..], base, buckets[..], view)
    }

    /** No byte is set but link words and bytes in use. */
    ghost predicate Scrubbed()
      reads this, mem
    {
      AllClean(mem[..], base, view)
    }

    ghost predicate Owns(blk: Blk)
      reads this
    {
      OwnedIn(view, blk)
    }

    ghost function Bytes(blk: Blk): seq<byte>
      reads mem
    {
      Slice(mem[..], blk)
    }

    /** Where an owned block lies. */
    lemma OwnedIsItem(blk: Blk)
      requires Valid() && Owns(blk)
      ensures IsItem(base, BucketOf(blk.size), blk.data)
      ensures 2 <= blk.size <= ItemSize(BucketOf(blk.size)) && blk.size <= BLOB_SIZE_MAX
      ensures 0 < blk.data && blk.data + ItemSize(BucketOf(blk.size)) <= mem.Length
      ensures ItemSize(BucketOf(blk.size)) >= 128
      ensures |Bytes(blk)| == blk.size
    {
      var b := BucketOf(blk.size);
      assert BucketOk(mem[..], base, b, buckets[b], view[b]);
      BIndexIsLeast(blk.size);
      ItemInArena(base, b, blk.data);
    }

    /** Stores a pointer in the first eight bytes at `p`. */
    method WriteLink(p: nat, link: nat)
      requires p + LINK_SIZE <= mem.Length
      modifies mem
      ensures mem[..] == Patched(old(mem[..]), p, ToLe(link, LINK_SIZE))
    {
      Copy(p, ToLe(link, LINK_SIZE));
    }

    /** `memcpy` to address `p`. */
    method Copy(p: nat, s: seq<byte>)
      requires p + |s| <= mem.Length
      modifies mem
      ensures mem[..] == Patched(old(mem[..]), p, s)
    {
      forall i | 0 <= i < |s| {
        mem[p + i] := s[i];
      }
    }

    /** Links the items of bucket `b` into a list, as the inner loop of `binit` does. */
    method LinkItems(b: nat) returns (head: nat)
      requires Shaped() && b < BUCKETS_COUNT && Fresh(b)
      modifies mem
      ensures Fresh(b + 1)
      ensures head == Head(Downward(base, b, Capacity(b)))
    {
      hide Linked, Downward, Untouched, ListsBelow, IsItem, ItemSize, Capacity;
      var itemSize, count := ItemSize(b), Capacity(b);
      var current := base + b * ARENA;
      head := 0;
      ghost var j := 0;
      NothingLinked(mem[..], base, b);
      while current < base + b * ARENA + count * itemSize
        invariant 0 <= j <= count && current == Item(base, b, j)
        invariant head == Head(Downward(base, b, j))
        invariant Fresh(b) && Linked(mem[..], Downward(base, b, j))
        decreases count - j
      {
        InitStep(mem[..], base, b, j);
        WriteLink(current, head);
        head := current;
        current := current + itemSize;
        ItemStep(base, b, j);
        j := j + 1;
      }
      if j < count {
        ItemInjective(base, b, j, count);
      }
      ListsExtend(mem[..], base, b);
    }

    /** While `binit` runs: the buckets before `b` are linked and nothing but link words is set. */
    ghost predicate Fresh(b: nat)
      reads mem
    {
      && b <= BUCKETS_COUNT
      && Untouched(mem[..], base)
      && ListsBelow(mem[..], base, b)
    }

    /** `binit` over zeroed memory: every item is free and nothing but link words is set. */
    constructor (base: nat)
      requires 0 < base && base + Footprint(BUCKETS_COUNT) <= U64
      ensures Valid() && Scrubbed() && fresh(mem) && fresh(buckets)
      ensures forall b :: 0 <= b < BUCKETS_COUNT ==> view[b].owned == map[]
    {
      hide Footprint, Untouched, Downward, Capacity, ItemSize, HeadersBelow, ListsBelow, AllOk, AllClean;
      FootprintIsExact(BUCKETS_COUNT);
      this.base := base;
      mem := new byte[base + Footprint(BUCKETS_COUNT)](_ => 0);
      buckets := new Bucket[BUCKETS_COUNT](_ => Bucket(0, NO_BLK, 0));
      view := seq(BUCKETS_COUNT, b requires 0 <= b < BUCKETS_COUNT =>
          BucketView(Downward(base, b, Capacity(b)), map[]));
      new;
      ZeroIsUntouched(mem[..], base);
      InitBuckets();
      InitIsValid();
    }

    /** The outer loop of `binit`: links each bucket's items and fills in its header. */
    method InitBuckets()
      requires Shaped() && Untouched(mem[..], base)
      modifies mem, buckets
      ensures Shaped() && Fresh(BUCKETS_COUNT) && HeadersBelow(buckets[..], base, BUCKETS_COUNT)
    {
      assert ListsBelow(mem[..], base, 0) && HeadersBelow(buckets[..], base, 0);
      hide Untouched, Downward, Capacity, ItemSize, ListsBelow, HeadersBelow;
      var i := 0;
      while i < BUCKETS_COUNT
        invariant 0 <= i <= BUCKETS_COUNT && Shaped() && Fresh(i)
        invariant HeadersBelow(buckets[..], base, i)
      {
        var count, itemSize := Capacity(i), ItemSize(i);
        var head := LinkItems(i);
        ArenaIsFilled(i);
        HeadersExtend(buckets[..], base, i, Bucket(head, Blk(base + i * ARENA, count * itemSize), count));
        buckets[i] := Bucket(head, Blk(base + i * ARENA, count * itemSize), count);
        i := i + 1;
      }
    }

    lemma InitIsValid()
      requires Shaped() && Fresh(BUCKETS_COUNT)
      requires forall b :: 0 <= b < BUCKETS_COUNT ==> view[b] == BucketView(Downward(base, b, Capacity(b)), map[])
      requires HeadersBelow(buckets[..], base, BUCKETS_COUNT)
      ensures Valid() && Scrubbed()
    {
      hide Linked, Partitioned, Downward, Capacity;
      forall b | 0 <= b < BUCKETS_COUNT
        ensures BucketOk(mem[..], base, b, buckets[b], view[b]) && Clean(mem[..], base, b, view[b])
      {
        DownwardPartitions(base, b);
        assert Linked(mem[..], Downward(base, b, Capacity(b)));
        var v0 := BucketView([], map[]);
        assert Clean(mem[..], base, b, v0);
        assert forall p: nat :: InUse(view[b], p) == InUse(v0, p);
      }
    }

    /** Takes the head of the bucket's free list, or returns the null block when it is empty. */
    method Alloc(size: nat) returns (blk: Blk)
      requires Valid() && 2 <= size <= BLOB_SIZE_MAX
      modifies this`view, buckets
      ensures Valid()
      ensures old(Scrubbed()) ==> Scrubbed()
      ensures if old(view[BucketOf(size)].free) == [] then blk == NO_BLK && view == old(view)
              else blk == Blk(old(view[BucketOf(size)].free[0]), size) && view == Taken(old(view), size)
    {
      hide BIndex, BucketOf, Linked, Partitioned, Clean, LinkAt;
      BIndexIsLeast(size);
      var i := BIndex(size);
      ghost var v := view[i];
      assert BucketOk(mem[..], base, i, buckets[i], v);
      if buckets[i].free != 0 {
        blk := Blk(buckets[i].nextFree, size);
        TakeIsOk(mem[..], base, i, v, size);
        var next := LinkAt(mem[..], blk.data);
        buckets[i] := buckets[i].(nextFree := next, free := buckets[i].free - 1);
        view := Taken(view, size);
      } else {
        blk := NO_BLK;
      }
    }

    /** Copies bytes into an owned block (`memcpy` by the owner): no free list changes. */
    method Write(blk: Blk, offset: nat, s: seq<byte>)
      requires Valid() && Owns(blk) && offset + |s| <= blk.size
      modifies mem
      ensures Valid()
      ensures old(Scrubbed()) ==> Scrubbed()
      ensures |old(Bytes(blk))| == blk.size && Bytes(blk) == Patched(old(Bytes(blk)), offset, s)
      ensures KeptBut(view, old(mem[..]), mem[..], blk.data)
    {
      hide AllOk, AllClean, Patched, IsItem, ItemSize, KeptBut, BucketOf, AgreeOutside;
      OwnedIsItem(blk);
      ghost var m := mem[..];
      WriteIsOk(m, base, buckets[..], view, blk, offset, s);
      WrittenBytes(m, blk, offset, s);
      Copy(blk.data + offset, s);
      OthersAreKept(m, blk);
    }

    /** Overwrites an owned block with zeros (`secure_zero`). */
    method SecureZero(blk: Blk)
      requires Valid() && Owns(blk)
      modifies mem
      ensures Valid()
      ensures old(Scrubbed()) ==> Scrubbed()
      ensures ZeroIn(mem[..], blk.data, blk.data + blk.size)
      ensures KeptBut(view, old(mem[..]), mem[..], blk.data)
    {
      hide AllOk, AllClean, IsItem, ItemSize, KeptBut, BucketOf;
      OwnedIsItem(blk);
      var zeros := seq(blk.size, _ => 0);
      Write(blk, 0, zeros);
      assert Bytes(blk) == zeros;
      ZeroSlice(mem[..], blk, zeros);
    }

    lemma OthersAreKept(m: seq<byte>, blk: Blk)
      requires Valid() && IsItem(base, BucketOf(blk.size), blk.data)
      requires AgreeOutside(m, mem[..], blk.data, blk.data + ItemSize(BucketOf(blk.size)))
      ensures KeptBut(view, m, mem[..], blk.data)
    {
      hide IsItem, AllOk, ItemSize, BucketOf;
      forall o: Blk | OwnedIn(view, o) && o.data != blk.data
        ensures Slice(mem[..], o) == Slice(m, o)
      {
        OwnedIsItem(o);
        ItemsDisjoint(base, BucketOf(blk.size), blk.data, BucketOf(o.size), o.data);
      }
    }

    /** Pushes an owned block back, its old first bytes replaced by the link. */
    method Free(blk: Blk)
      requires Valid() && Owns(blk)
      modifies this`view, buckets, mem
      ensures Valid()
      ensures view == Given(old(view), blk)
      ensures old(Scrubbed()) && ZeroIn(old(mem[..]), blk.data, blk.data + blk.size) ==> Scrubbed()
      ensures KeptBut(view, old(mem[..]), mem[..], blk.data)
    {
      hide AllOk, AllClean, Patched, BIndex, BucketOf, IsItem, ItemSize, AgreeOutside;
      OwnedIsItem(blk);
      BIndexIsLeast(blk.size);
      var i := BIndex(blk.size);
      FreeIsOk(mem[..], base, buckets[..], view, blk);
      WriteLink(blk.data, buckets[i].nextFree);
      buckets[i] := buckets[i].(nextFree := blk.data, free := buckets[i].free + 1);
      view := Given(view, blk);
      assert buckets[..] == old(buckets[..])[i := buckets[i]];
      OthersAreKept(old(mem[..]), blk);
    }
  }

  /** The buckets after a block of `size` bytes has been handed out. */
  function Taken(view: seq<BucketView>, size: nat): seq<BucketView>
    requires |view| == BUCKETS_COUNT && view[BucketOf(size)].free != []
  {
    var v := view[BucketOf(size)];
    view[BucketOf(size) := BucketView(v.free[1..], v.owned[v.free[0] := size])]
  }

  /** The buckets after `blk` has been given back. */
  function Given(view: seq<BucketView>, blk: Blk): seq<BucketView>
    requires |view| == BUCKETS_COUNT
  {
    var v := view[BucketOf(blk.size)];
    view[BucketOf(blk.size) := BucketView([blk.data] + v.free, v.owned - {blk.data})]
  }

  /** Memory after `bfree` has written the link word of `blk`. */
  function FreedMem(m: seq<byte>, buckets: seq<Bucket>, blk: Blk): seq<byte>
    requires |buckets| == BUCKETS_COUNT && blk.data + LINK_SIZE <= |m|
  {
    Patched(m, blk.data, ToLe(buckets[BucketOf(blk.size)].nextFree, LINK_SIZE))
  }

  /** Changing memory inside one item keeps every bucket whose free list avoids it. */
  lemma ChangeKeepsBucket(m: seq<byte>, m': seq<byte>, base: nat, b: nat, p: nat, c: nat, bucket: Bucket, v: BucketView)
    requires IsItem(base, b, p) && AgreeOutside(m, m', p, p + ItemSize(b))
    requires BucketOk(m, base, c, bucket, v) && p !in v.free
    ensures BucketOk(m', base, c, bucket, v)
  {
    ChangeKeepsLinked(m, m', base, b, p, c, v.free);
  }

  lemma FreeIsOk(m: seq<byte>, base: nat, buckets: seq<Bucket>, view: seq<BucketView>, blk: Blk)
    requires AllOk(m, base, buckets, view)
    requires 2 <= blk.size <= BLOB_SIZE_MAX &&
             blk.data + LINK_SIZE <= blk.data + ItemSize(BucketOf(blk.size)) <= |m| <= U64
    requires blk.data in view[BucketOf(blk.size)].owned && view[BucketOf(blk.size)].owned[blk.data] == blk.size
    ensures var i := BucketOf(blk.size);
            AllOk(FreedMem(m, buckets, blk), base,
                  buckets[i := buckets[i].(nextFree := blk.data, free := buckets[i].free + 1)], Given(view, blk))
    ensures AllClean(m, base, view) && ZeroIn(m, blk.data, blk.data + blk.size) ==>
              AllClean(FreedMem(m, buckets, blk), base, Given(view, blk))
    ensures AgreeOutside(m, FreedMem(m, buckets, blk), blk.data, blk.data + ItemSize(BucketOf(blk.size)))
  {
    var i, p, m', view' := BucketOf(blk.size), blk.data, FreedMem(m, buckets, blk), Given(view, blk);
    var v, v' := view[i], view'[i];
    var buckets' := buckets[i := buckets[i].(nextFree := p, free := buckets[i].free + 1)];
    assert BucketOk(m, base, i, buckets[i], v);
    GiveKeepsPartition(base, i, v, p);
    LinkIn(m, base, i, v.free, p);
    PatchedAgrees(m, p, ToLe(Head(v.free), LINK_SIZE), p, p + ItemSize(i));
    hide Linked, Patched, AgreeOutside, Partitioned, ToLe, IsItem;
    forall c | 0 <= c < BUCKETS_COUNT
      ensures BucketOk(m', base, c, buckets'[c], view'[c])
    {
      if c != i {
        ItemOnlyIn(base, i, p, c, view[c]);
        ChangeKeepsBucket(m, m', base, i, p, c, buckets[c], view[c]);
      }
    }
    if AllClean(m, base, view) && ZeroIn(m, p, p + blk.size) {
      FreeKeepsClean(m, base, view, blk, buckets[i].nextFree);
    }
  }

  lemma ItemOnlyIn(base: nat, b: nat, p: nat, c: nat, v: BucketView)
    requires IsItem(base, b, p) && Partitioned(base, c, v) && b != c
    ensures p !in v.free && p !in v.owned
  {
    if p in v.free || p in v.owned {
      ItemHasOneBucket(base, b, c, p);
    }
  }

  lemma FreeKeepsClean(m: seq<byte>, base: nat, view: seq<BucketView>, blk: Blk, link: nat)
    requires |view| == BUCKETS_COUNT && AllClean(m, base, view) && ZeroIn(m, blk.data, blk.data + blk.size)
    requires IsItem(base, BucketOf(blk.size), blk.data)
    requires blk.data + LINK_SIZE <= blk.data + ItemSize(BucketOf(blk.size)) <= |m|
    requires blk.data in view[BucketOf(blk.size)].owned && view[BucketOf(blk.size)].owned[blk.data] == blk.size
    ensures AllClean(Patched(m, blk.data, ToLe(link, LINK_SIZE)), base, Given(view, blk))
  {
    var i, p, view' := BucketOf(blk.size), blk.data, Given(view, blk);
    assert Clean(m, base, i, view[i]);
    assert ZeroIn(m, p + InUse(view[i], p), p + ItemSize(i));
    assert ZeroIn(m, p + LINK_SIZE, p + ItemSize(i));
    forall c | 0 <= c < BUCKETS_COUNT
      ensures Clean(Patched(m, p, ToLe(link, LINK_SIZE)), base, c, view'[c])
    {
      assert forall q: nat :: q != p ==> InUse(view'[c], q) == InUse(view[c], q);
      LinkKeepsClean(m, base, i, p, link, c, view[c], view'[c]);
    }
  }

  /** Payload bytes written to an owned block disturb neither the free lists nor any header. */
  lemma WriteIsOk(m: seq<byte>, base: nat, buckets: seq<Bucket>, view: seq<BucketView>, blk: Blk, offset: nat,
                  s: seq<byte>)
    requires AllOk(m, base, buckets, view) && offset + |s| <= blk.size
    requires IsItem(base, BucketOf(blk.size), blk.data) &&
             blk.data + blk.size <= blk.data + ItemSize(BucketOf(blk.size)) <= |m|
    requires blk.data in view[BucketOf(blk.size)].owned && view[BucketOf(blk.size)].owned[blk.data] == blk.size
    ensures AllOk(Patched(m, blk.data + offset, s), base, buckets, view)
    ensures AllClean(m, base, view) ==> AllClean(Patched(m, blk.data + offset, s), base, view)
    ensures AgreeOutside(m, Patched(m, blk.data + offset, s), blk.data, blk.data + ItemSize(BucketOf(blk.size)))
  {
    var i, p, m' := BucketOf(blk.size), blk.data, Patched(m, blk.data + offset, s);
    PatchedAgrees(m, p + offset, s, p, p + ItemSize(i));
    PatchedAgrees(m, p + offset, s, p, p + blk.size);
    ChangeKeepsOk(m, m', base, buckets, view, blk);
    if AllClean(m, base, view) {
      hide *;
      WriteKeepsClean(m, m', base, view, blk);
    }
  }

  lemma ChangeKeepsOk(m: seq<byte>, m': seq<byte>, base: nat, buckets: seq<Bucket>, view: seq<BucketView>, blk: Blk)
    requires AllOk(m, base, buckets, view)
    requires AgreeOutside(m, m', blk.data, blk.data + ItemSize(BucketOf(blk.size)))
    requires blk.data in view[BucketOf(blk.size)].owned
    ensures AllOk(m', base, buckets, view)
  {
    var i, p := BucketOf(blk.size), blk.data;
    assert BucketOk(m, base, i, buckets[i], view[i]);
    assert p !in view[i].free && IsItem(base, i, p);
    hide Linked, AgreeOutside, IsItem, ItemSize, AllDistinct;
    forall c | 0 <= c < BUCKETS_COUNT
      ensures BucketOk(m', base, c, buckets[c], view[c])
    {
      if c != i {
        ItemOnlyIn(base, i, p, c, view[c]);
      }
      ChangeKeepsBucket(m, m', base, i, p, c, buckets[c], view[c]);
    }
  }

  lemma WriteKeepsClean(m: seq<byte>, m': seq<byte>, base: nat, view: seq<BucketView>, blk: Blk)
    requires |view| == BUCKETS_COUNT && AllClean(m, base, view)
    requires IsItem(base, BucketOf(blk.size), blk.data) && blk.size <= ItemSize(BucketOf(blk.size))
    requires AgreeOutside(m, m', blk.data, blk.data + blk.size)
    requires blk.data in view[BucketOf(blk.size)].owned && view[BucketOf(blk.size)].owned[blk.data] == blk.size
    ensures AllClean(m', base, view)
  {
    var i, p := BucketOf(blk.size), blk.data;
    assert Clean(m, base, i, view[i]);
    assert ZeroIn(m, p + InUse(view[i], p), p + ItemSize(i));
    ZeroFrame(m, m', p, p + blk.size, p + InUse(view[i], p), p + ItemSize(i));
    assert AgreeOutside(m, m', p, p + ItemSize(i));
    hide Clean, AgreeOutside, IsItem, ItemSize, ZeroIn;
    forall c | 0 <= c < BUCKETS_COUNT
      ensures Clean(m', base, c, view[c])
    {
      ChangeKeepsClean(m, m', base, i, p, c, view[c], view[c]);
    }
  }

  lemma ZeroSlice(m: seq<byte>, blk: Blk, zeros: seq<byte>)
    requires blk.data + blk.size <= |m| && Slice(m, blk) == zeros && forall i :: 0 <= i < |zeros| ==> zeros[i] == 0
    ensures ZeroIn(m, blk.data, blk.data + blk.size)
  {
    forall x | blk.data <= x < blk.data + blk.size
      ensures m[x] == 0
    {
      assert m[x] == zeros[x - blk.data];
    }
  }

  lemma WrittenBytes(m: seq<byte>, blk: Blk, offset: nat, s: seq<byte>)
    requires offset + |s| <= blk.size && blk.data + blk.size <= |m|
    ensures Slice(Patched(m, blk.data + offset, s), blk) == Patched(Slice(m, blk), offset, s)
  {
  }

  lemma TakeIsOk(m: seq<byte>, base: nat, b: nat, v: BucketView, size: nat)
    requires Partitioned(base, b, v) && Linked(m, v.free) && v.free != []
    requires 2 <= size <= BLOB_SIZE_MAX && BucketOf(size) == b
    ensures v.free[0] + LINK_SIZE <= |m|
    ensures var v' := BucketView(v.free[1..], v.owned[v.free[0] := size]);
            && Partitioned(base, b, v') && Linked(m, v'.free)
            && LinkAt(m, v.free[0]) == Head(v'.free)
            && (Clean(m, base, b, v) ==> Clean(m, base, b, v'))
  {
    TakeKeepsPartition(base, b, v, size);
    DropKeepsLinked(m, v.free);
    var p := v.free[0];
    var v' := BucketView(v.free[1..], v.owned[p := size]);
    if Clean(m, base, b, v) {
      forall q: nat | IsItem(base, b, q)
        ensures ZeroIn(m, q + InUse(v', q), q + ItemSize(b))
      {
        assert ZeroIn(m, q + InUse(v, q), q + ItemSize(b));
        assert InUse(v, q) <= InUse(v', q);
      }
    }
  }

  lemma ZeroIsUntouched(m: seq<byte>, base: nat)
    requires base + BUCKETS_COUNT * ARENA <= |m| && forall x :: 0 <= x < |m| ==> m[x] == 0
    ensures Untouched(m, base)
  {
    forall c, p: nat | 0 <= c < BUCKETS_COUNT && IsItem(base, c, p)
      ensures p + ItemSize(c) <= |m|
    {
      ItemInArena(base, c, p);
    }
  }
}
