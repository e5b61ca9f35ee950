/**
 The blob store of storage.c: the probing table and the bucket allocator behaving as one map
 from ids to blocks that are unpublished or published until some time.
 */
module Storage {
  import opened Words
  import opened Types
  import opened Probing
  import opened LinearProbing
  import opened Buckets
  import opened FreeLists
  import opened Balloc
  import opened Ownership
  import Gather

  const VALID_UNTIL_EMPTY: uint32 := 0xFFFF_FFFF
  const VALID_UNTIL_NOT_PUBLISHED: uint32 := 0xFFFF_FFFE

  /** Every gap of the table carries the EMPTY expiry. */
  ghost predicate GapsMarked(ids: seq<Key>, until: seq<uint32>) {
    && |ids| == |until|
    && forall i :: 0 <= i < |ids| && IsNull(ids[i]) ==> until[i] == VALID_UNTIL_EMPTY
  }

  lemma EraseKeepsMarks(ids0: seq<Key>, until0: seq<uint32>, ids: seq<Key>, until: seq<uint32>, hole: nat, id: Key)
    requires GapsMarked(ids0, until0) && hole < |ids| && !IsNull(id)
    requires GapsKept(ids0, until0, ids[hole := id], until)
    ensures GapsMarked(ids, until[hole := VALID_UNTIL_EMPTY])
  {
    forall i | 0 <= i < |ids| && IsNull(ids[i])
      ensures until[hole := VALID_UNTIL_EMPTY][i] == VALID_UNTIL_EMPTY
    {
      assert i != hole ==> ids[hole := id][i] == ids[i];
    }
  }

  lemma FillKeepsMarks(ids: seq<Key>, until: seq<uint32>, slot: nat, id: Key, t: uint32)
    requires GapsMarked(ids, until) && slot < |ids| && !IsNull(id)
    ensures GapsMarked(ids[slot := id], until[slot := t])
  {
  }

  lemma PublishKeepsMarks(ids: seq<Key>, until: seq<uint32>, index: nat, t: uint32)
    requires GapsMarked(ids, until) && index < |ids| && !IsNull(ids[index])
    ensures GapsMarked(ids, until[index := t])
  {
  }

  lemma SameSize(m: map<Key, Entry>, id: Key, e: Entry)
    requires id in m
    ensures |m[id := e]| == |m|
  {
    assert m[id := e].Keys == m.Keys;
  }

  lemma OneMore(m: map<Key, Entry>, id: Key, e: Entry)
    requires id !in m
    ensures |m[id := e]| == |m| + 1
  {
    assert m[id := e].Keys == m.Keys + {id};
  }

  lemma OneLess(m: map<Key, Entry>, id: Key)
    requires id in m
    ensures |m - {id}| == |m| - 1
  {
    assert m.Keys == (m - {id}).Keys + {id};
  }

  class Store {
    const table: ProbingTable
    const balloc: BucketAllocator
    const invalid: array<Key>
    var htableFree: nat
    /** Blocks handed to callers by Get and not yet given back. */
    ghost var detached: map<nat, nat>

    ghost function Core(): set<object> {
      {this, table, table.ids, table.until, table.data, balloc, balloc.mem, balloc.buckets}
    }

    ghost function Repr(): (r: set<object>)
      ensures Core() <= r
    {
      Core() + {invalid}
    }

    ghost predicate Valid()
      reads Repr()
    {
      && table.Valid() && balloc.Valid() && balloc.Scrubbed()
      && invalid != table.ids && invalid.Length == table.ids.Length
      && htableFree + |table.model| == table.ids.Length
      && GapsMarked(table.ids[..], table.until[..])
      && Owners(balloc.view, table.model, detached)
    }

    lemma ViewIsPartitioned()
      requires balloc.Valid()
      ensures AllPartitioned(balloc.base, balloc.view)
    {
      assert forall b :: 0 <= b < BUCKETS_COUNT ==>
               BucketOk(balloc.mem[..], balloc.base, b, balloc.buckets[..][b], balloc.view[b]);
    }

    /** All items of bucket `b` are held by the table or by callers. */
    ghost predicate NoRoom(b: nat)
      requires b < BUCKETS_COUNT
      reads Core()
    {
      |KeysIn(table.model, b)| + |DetachedIn(detached, b)| >= Capacity(b)
    }

    lemma NoFreeItem(b: nat)
      requires Valid() && b < BUCKETS_COUNT
      ensures |balloc.view| == BUCKETS_COUNT && (balloc.view[b].free == [] <==> NoRoom(b))
    {
      hide WellProbed, Represents, AllClean, BucketOf, GapsMarked, OwnedIn, Capacity, KeysIn, DetachedIn, Linked;
      assert BucketOk(balloc.mem[..], balloc.base, b, balloc.buckets[..][b], balloc.view[b]);
    }

    /** With the server's table size the table never fills, so "no empty slots" never happens. */
    lemma NeverFull()
      requires Valid() && table.ids.Length == 0x40000
      ensures htableFree >= 128
    {
      hide WellProbed, Represents, AllOk, AllClean, GapsMarked, Owners;
      ViewIsPartitioned();
      EntriesAreBounded(balloc.base, balloc.view, table.model, detached);
    }

    /** Following the links of bucket `b` through memory meets each of its free items once, and then NULL. */
    lemma FreeListIsIntact(b: nat)
      requires Valid() && b < BUCKETS_COUNT
      ensures b < |balloc.view|
      ensures Walk(balloc.mem[..], balloc.buckets[b].nextFree, balloc.buckets[b].free) == balloc.view[b].free
      ensures balloc.view[b].free != [] ==>
                var last := balloc.view[b].free[|balloc.view[b].free| - 1];
                last + LINK_SIZE <= balloc.mem.Length && LinkAt(balloc.mem[..], last) == 0
      ensures AllDistinct(balloc.view[b].free)
      ensures forall p :: p in balloc.view[b].free ==> IsItem(balloc.base, b, p) && p !in balloc.view[b].owned
    {
      hide WellProbed, Represents, AllClean, BucketOf, GapsMarked, OwnedIn, Capacity, IsItem;
      assert BucketOk(balloc.mem[..], balloc.base, b, balloc.buckets[..][b], balloc.view[b]);
      WalkIsFreeList(balloc.mem[..], balloc.view[b].free);
    }

    /** Every arena byte is zero unless it is in use by an owned block or part of a free item's link. */
    lemma NoByteSurvives(x: nat)
      requires Valid() && balloc.base <= x < balloc.base + BUCKETS_COUNT * ARENA && x < balloc.mem.Length
      requires balloc.mem[x] != 0
      ensures exists b: nat, p: nat ::
                && b < BUCKETS_COUNT == |balloc.view| && IsItem(balloc.base, b, p)
                && p <= x < p + if p in balloc.view[b].owned && balloc.view[b].owned[p] > LINK_SIZE
                                then balloc.view[b].owned[p] else LINK_SIZE
    {
      hide WellProbed, Represents, AllOk, BucketOf, GapsMarked, Owners, Capacity;
      var b, p := AddressInItem(balloc.base, x);
      assert Clean(balloc.mem[..], balloc.base, b, balloc.view[b]);
      assert ZeroIn(balloc.mem[..], p + InUse(balloc.view[b], p), p + ItemSize(b));
      assert balloc.mem[..][x] == balloc.mem[x];
    }

    constructor (hash: Key -> nat, size: nat, base: nat)
      requires IsTableSize(size) && 0 < base && base + Footprint(BUCKETS_COUNT) <= U64
      ensures Valid() && fresh(Repr())
      ensures table.model == map[] && detached == map[] && table.ids.Length == size
      ensures |balloc.view| == BUCKETS_COUNT && forall b :: 0 <= b < BUCKETS_COUNT ==> balloc.view[b].owned == map[]
    {
      hide WellProbed, Represents, AllOk, AllClean, Footprint, Owners;
      table := new ProbingTable(hash, size, VALID_UNTIL_EMPTY);
      balloc := new BucketAllocator(base);
      invalid := new Key[size](_ => NULL_KEY);
      htableFree := size;
      detached := map[];
      new;
      NoOwners(balloc.view);
    }

    /** Reserves a block for a new, unpublished entry; the caller has checked the id is not taken. */
    method Create(id: Key, size: nat) returns (blk: Blk)
      requires Valid() && id !in table.model && 2 <= size <= BLOB_SIZE_MAX
      modifies Core()
      ensures Valid() && detached == old(detached) && balloc.mem[..] == old(balloc.mem[..])
      ensures blk.size == 0 <==> IsNull(id) || old(htableFree) == 0 || old(NoRoom(BucketOf(size)))
      ensures blk.size == 0 ==> blk == NO_BLK && table.model == old(table.model) && balloc.view == old(balloc.view)
      ensures blk.size != 0 ==> blk.size == size && balloc.view == Taken(old(balloc.view), size)
      ensures blk.size != 0 ==> table.model == old(table.model)[id := Entry(VALID_UNTIL_NOT_PUBLISHED, blk)]
    {
      hide WellProbed, Represents, AllOk, AllClean, BucketOf, Owners, GapsMarked;
      if IsNull(id) {
        return NO_BLK;
      }
      if htableFree == 0 {
        return NO_BLK;
      }
      NoFreeItem(BucketOf(size));
      var index := table.FindFreeSlot(id);
      ViewIsPartitioned();
      ghost var view := balloc.view;
      blk := balloc.Alloc(size);
      if blk.size < size {
        return NO_BLK;
      }
      CreateKeepsOwners(balloc.base, view, table.model, detached, id, VALID_UNTIL_NOT_PUBLISHED, size);
      FillKeepsMarks(table.ids[..], table.until[..], index, id, VALID_UNTIL_NOT_PUBLISHED);
      OneMore(table.model, id, Entry(VALID_UNTIL_NOT_PUBLISHED, blk));
      table.Fill(index, id, Entry(VALID_UNTIL_NOT_PUBLISHED, blk));
      htableFree := htableFree - 1;
    }

    /** Sets the expiry of the entry `id`, if there is one. */
    method Publish(id: Key, validUntil: uint32) returns (ok: bool)
      requires Valid()
      modifies Core()
      ensures Valid() && detached == old(detached) && balloc.view == old(balloc.view) &&
              balloc.mem[..] == old(balloc.mem[..])
      ensures ok <==> id in old(table.model)
      ensures table.model == if ok then old(table.model)[id := old(table.model)[id].(until := validUntil)]
              else old(table.model)
    {
      hide WellProbed, Represents, AllOk, AllClean, BucketOf, Owners, GapsMarked;
      var index := table.Lookup(id);
      if index != table.ids.Length {
        KnownIsNotNull(id, index);
        PublishKeepsOwners(balloc.view, table.model, detached, id, validUntil);
        PublishKeepsMarks(table.ids[..], table.until[..], index, validUntil);
        SameSize(table.model, id, table.model[id].(until := validUntil));
        table.SetUntil(index, validUntil);
        return true;
      }
      return false;
    }

    lemma KnownIsNotNull(id: Key, index: nat)
      requires table.Valid() && index < table.ids.Length && table.ids[index] == id && id in table.model
      ensures !IsNull(id)
    {
    }

    /** Whether some entry, published or not, uses `id`. */
    method IsAlreadyTaken(id: Key) returns (taken: bool)
      requires Valid()
      ensures taken <==> id in table.model
    {
      var index := table.Lookup(id);
      taken := table.ids.Length != index;
    }

    /** Takes the entry at `index` out of the table; its block becomes the caller's. */
    method Detach(id: Key, index: nat) returns (hole: nat)
      requires Valid() && id in table.model && index < table.ids.Length && table.ids[index] == id
      requires table.model[id] == Entry(table.until[index], table.data[index])
      modifies Core()
      ensures Valid() && balloc.view == old(balloc.view) && balloc.mem[..] == old(balloc.mem[..])
      ensures table.model == old(table.model) - {id}
      ensures detached == old(detached)[old(table.model)[id].blk.data := old(table.model)[id].blk.size]
      ensures hole < table.ids.Length && table.data[hole] == old(table.model)[id].blk && IsNull(table.ids[hole])
    {
      hide WellProbed, Represents, AllOk, AllClean, BucketOf, Owners, GapsMarked, GapsKept;
      KnownIsNotNull(id, index);
      DetachKeepsOwners(balloc.view, table.model, detached, id);
      OneLess(table.model, id);
      ghost var ids0, until0 := table.ids[..], table.until[..];
      hole := table.Erase(index);
      EraseKeepsMarks(ids0, until0, table.ids[..], table.until[..], hole, id);
      table.WipeGap(hole, VALID_UNTIL_EMPTY);
      detached := detached[old(table.model)[id].blk.data := old(table.model)[id].blk.size];
      htableFree := htableFree + 1;
    }

    /** Hands out a published blob and forgets it; unpublished or unknown ids get nothing. */
    method Get(id: Key) returns (blk: Blk)
      requires Valid()
      modifies Core()
      ensures Valid() && balloc.view == old(balloc.view) && balloc.mem[..] == old(balloc.mem[..])
      ensures blk.size != 0 <==> id in old(table.model) && old(table.model)[id].until != VALID_UNTIL_NOT_PUBLISHED
      ensures blk.size == 0 ==> blk == NO_BLK && table.model == old(table.model) && detached == old(detached)
      ensures blk.size != 0 ==> blk == old(table.model)[id].blk && blk.data != 0 && blk.data !in old(detached)
      ensures blk.size != 0 ==>
                table.model == old(table.model) - {id} && detached == old(detached)[blk.data := blk.size]
    {
      hide WellProbed, Represents, AllOk, AllClean, BucketOf, GapsMarked, GapsKept, Owners, OwnedIn;
      var index := table.Lookup(id);
      if index != table.ids.Length {
        if table.until[index] != VALID_UNTIL_NOT_PUBLISHED {
          blk := table.data[index];
          EntryIsOwned(balloc.view, table.model, detached, id);
          balloc.OwnedIsItem(blk);
          var hole := Detach(id, index);
          return;
        }
      }
      return NO_BLK;
    }

    /** Wipes a detached block and gives it back to the allocator. */
    method Free(blk: Blk)
      requires Valid() && blk.data in detached && detached[blk.data] == blk.size
      modifies this`detached, balloc, balloc.mem, balloc.buckets
      ensures Valid() && detached == old(detached) - {blk.data}
      ensures balloc.view == Given(old(balloc.view), blk) && Shrunk(old(balloc.view), balloc.view)
      ensures Kept(balloc.view, old(balloc.mem[..]), balloc.mem[..])
    {
      hide WellProbed, Represents, AllOk, AllClean, BucketOf, GapsMarked, Kept, KeptBut;
      hide Shrunk, Given, AllPartitioned, Owners, OwnedIn;
      DetachedIsOwned(balloc.view, table.model, detached, blk);
      ghost var m0, view0 := balloc.mem[..], balloc.view;
      GiveKeepsOwners(view0, table.model, detached, blk.data);
      ViewIsPartitioned();
      GivenIsShrunk(balloc.base, view0, blk);
      balloc.SecureZero(blk);
      ghost var m1 := balloc.mem[..];
      balloc.Free(blk);
      detached := detached - {blk.data};
      KeptTwice(balloc.base, view0, m0, m1, balloc.mem[..], blk);
    }

    /** Clears the stale descriptor an erased entry left in its gap. */
    method ClearData(hole: nat)
      requires Valid() && hole < table.ids.Length && IsNull(table.ids[hole])
      modifies table.data
      ensures Valid()
    {
      hide WellProbed, Represents, AllOk, AllClean, BucketOf, GapsMarked, Owners;
      table.ClearGapData(hole);
    }

    /** Drops the entry `id`, if there is one, with its block. */
    method Abort(id: Key)
      requires Valid()
      modifies Core()
      ensures Valid() && table.model == old(table.model) - {id} && detached == old(detached)
      ensures if id in old(table.model) then balloc.view == Given(old(balloc.view), old(table.model)[id].blk)
              else balloc.view == old(balloc.view)
      ensures Shrunk(old(balloc.view), balloc.view) && Kept(balloc.view, old(balloc.mem[..]), balloc.mem[..])
    {
      hide Shrunk, WellProbed, Represents, AllOk, AllClean, BucketOf, GapsMarked, GapsKept;
      hide Given, Owners, Kept, OwnedIn;
      var index := table.Lookup(id);
      if index != table.ids.Length {
        ghost var blk := table.model[id].blk;
        EntryIsOwned(balloc.view, table.model, detached, id);
        PutAndRemove(detached, blk.data, blk.size);
        var hole := Detach(id, index);
        Free(table.data[hole]);
        ClearData(hole);
      } else {
        assert table.model - {id} == table.model;
        KeptSelf(balloc.view, balloc.mem[..]);
      }
    }

    /** Bytes written by a block's owner (the server's `memcpy`). */
    method Write(blk: Blk, offset: nat, s: seq<byte>)
      requires Valid() && balloc.Owns(blk) && offset + |s| <= blk.size
      modifies balloc.mem
      ensures Valid()
      ensures |old(balloc.Bytes(blk))| == blk.size && balloc.Bytes(blk) == Patched(old(balloc.Bytes(blk)), offset, s)
      ensures KeptBut(balloc.view, old(balloc.mem[..]), balloc.mem[..], blk.data)
    {
      hide WellProbed, Represents, AllOk, AllClean, BucketOf, GapsMarked, Owners, OwnedIn;
      balloc.Write(blk, offset, s);
    }

    lemma InUseIs(b: nat)
      requires Valid() && b < BUCKETS_COUNT
      ensures Capacity(b) - balloc.buckets[b].free == |KeysIn(table.model, b)| + |DetachedIn(detached, b)|
    {
      hide WellProbed, Represents, AllClean, BucketOf, GapsMarked, OwnedIn, Capacity, KeysIn, DetachedIn, Linked;
      assert BucketOk(balloc.mem[..], balloc.base, b, balloc.buckets[..][b], balloc.view[b]);
    }

    /** Per bucket, the number of blocks in use: held by the table or by callers. */
    method Status() returns (inUse: seq<int>, max: seq<nat>)
      requires Valid()
      ensures |inUse| == |max| == BUCKETS_COUNT
      ensures forall b :: 0 <= b < BUCKETS_COUNT ==> max[b] == Capacity(b)
      ensures forall b :: 0 <= b < BUCKETS_COUNT ==> inUse[b] == |KeysIn(table.model, b)| + |DetachedIn(detached, b)|
    {
      hide WellProbed, Represents, AllOk, AllClean, BucketOf, GapsMarked, Owners, Capacity, KeysIn, DetachedIn;
      inUse, max := [], [];
      var i := 0;
      while i < BUCKETS_COUNT
        invariant 0 <= i <= BUCKETS_COUNT && |inUse| == |max| == i
        invariant forall b :: 0 <= b < i ==> max[b] == Capacity(b)
        invariant forall b :: 0 <= b < i ==> inUse[b] == |KeysIn(table.model, b)| + |DetachedIn(detached, b)|
      {
        InUseIs(i);
        max := max + [Capacity(i)];
        inUse := inUse + [Capacity(i) - balloc.buckets[i].free];
        i := i + 1;
      }
    }

    lemma GatheredIsOverdue(now: uint32, e: seq<Key>)
      requires Valid() && e == Gather.Expired(table.ids[..], table.until[..], now)
      ensures KeySet(e) == Overdue(table.model, now) && KeysDistinct(e)
      ensures forall k :: k in e ==> k in table.model && table.model[k].until < now
    {
      ExpiredIsOverdue(table.ids[..], table.until[..], table.data[..], table.model, now);
      forall k | k in e
        ensures k in table.model && table.model[k].until < now
      {
        assert k in Overdue(table.model, now);
      }
    }

    /** Frees the gathered ids one by one; each is still in the table when its turn comes, although every
        removal before it may have moved its slot. The branch the source marks unreachable is hit exactly
        when an unpublished id was gathered. */
    method Rip(count: nat, ghost e: seq<Key>) returns (hit: bool)
      requires Valid() && count <= invalid.Length && e == invalid[..count] && KeysDistinct(e)
      requires forall k :: k in e ==> k in table.model
      modifies Core()
      ensures Valid() && detached == old(detached)
      ensures hit <==> !AllPublished(old(table.model), e)
      ensures !hit ==> table.model == old(table.model) - KeySet(e)
      ensures Shrunk(old(balloc.view), balloc.view) && Kept(balloc.view, old(balloc.mem[..]), balloc.mem[..])
    {
      hide Valid, Kept, Shrunk, KeySet, AllPublished, KeysDistinct;
      ScratchIsApart();
      ghost var model0, view0, m0 := table.model, balloc.view, balloc.mem[..];
      KeptSelf(view0, m0);
      NothingRemoved(model0, e);
      var i := 0;
      while i < count
        invariant 0 <= i <= count
        invariant Valid() && detached == old(detached) && e == invalid[..count]
        invariant table.model == model0 - KeySet(e[..i])
        invariant AllPublished(model0, e[..i])
        invariant Shrunk(view0, balloc.view) && Kept(balloc.view, m0, balloc.mem[..])
      {
        NextIsThere(model0, e, i);
        ghost var view1, m1 := balloc.view, balloc.mem[..];
        assert invalid[i] == e[i];
        PublishedGrows(model0, e, i);
        hit := RipOne(invalid[i]);
        if hit {
          return;
        }
        KeptOnward(view1, balloc.view, m0, m1, balloc.mem[..]);
        ShrunkOnward(view0, view1, balloc.view);
        i := i + 1;
      }
      assert e[..count] == e;
      return false;
    }

    lemma ScratchIsApart()
      requires Valid()
      ensures invalid !in Core()
    {
      hide WellProbed, Represents, AllOk, AllClean, GapsMarked, Owners;
    }

    /** One step of the removal pass; it hits the branch marked unreachable when Get refuses the id. */
    method RipOne(id: Key) returns (hit: bool)
      requires Valid() && id in table.model
      modifies Core()
      ensures Valid() && detached == old(detached)
      ensures hit <==> old(table.model)[id].until == VALID_UNTIL_NOT_PUBLISHED
      ensures hit ==> table.model == old(table.model) && balloc.view == old(balloc.view)
      ensures hit ==> balloc.mem[..] == old(balloc.mem[..])
      ensures !hit ==> table.model == old(table.model) - {id} && Shrunk(old(balloc.view), balloc.view)
      ensures !hit ==> Kept(balloc.view, old(balloc.mem[..]), balloc.mem[..])
    {
      hide WellProbed, Represents, AllOk, AllClean, BucketOf, GapsMarked, Owners, OwnedIn, Kept, Given;
      hide AllPartitioned, Shrunk;
      var block := Get(id);
      if block.size == 0 || block.data == 0 {
        return true;
      }
      PutAndRemove(old(detached), block.data, block.size);
      Free(block);
      return false;
    }

    /** Gathers every overdue id and then frees them one by one. The branch the source marks unreachable is
        hit exactly at the very last clock value with an upload in flight: there the entry's reserved
        expiry word lies below the clock. */
    method Reap(now: uint32, simd: bool) returns (hit: bool)
      requires Valid()
      modifies Repr()
      ensures Valid() && detached == old(detached)
      ensures hit <==> now == VALID_UNTIL_EMPTY && Unpublished(old(table.model))
      ensures !hit ==> table.model == old(table.model) - Overdue(old(table.model), now)
      ensures Shrunk(old(balloc.view), balloc.view) && Kept(balloc.view, old(balloc.mem[..]), balloc.mem[..])
    {
      hide WellProbed, Represents, AllOk, AllClean, BucketOf, GapsMarked, Owners, OwnedIn, Kept, Shrunk;
      hide Gather.Expired, KeysDistinct;
      var count;
      if simd {
        count := Gather.GatherSimd(table.ids, table.until, now, invalid);
      } else {
        assert Gather.Expired([], [], now) == [] by { NothingExpired(now); }
        assert table.ids[..0] == [] && table.until[..0] == [];
        count := Gather.GatherScalar(table.ids, table.until, now, invalid, 0, 0);
      }
      ghost var e := invalid[..count];
      GatheredIsOverdue(now, e);
      GatheredUnpublished(table.model, now, e);
      hit := Rip(count, e);
      if !hit {
        WipeScratch(count);
      }
    }

    /** Zeroes the gathered ids again. */
    method WipeScratch(count: nat)
      requires Valid() && count <= invalid.Length
      modifies invalid
      ensures Valid()
    {
      hide WellProbed, Represents, AllOk, AllClean, GapsMarked, Owners;
      Gather.ZeroKeys(invalid, count);
    }
  }

  /** The ids a reaper tick at `now` removes. */
  ghost function Overdue(model: map<Key, Entry>, now: uint32): set<Key> {
    set k | k in model && model[k].until < now
  }

  /** Some entry is not published yet. */
  ghost predicate Unpublished(model: map<Key, Entry>) {
    exists k :: k in model && model[k].until == VALID_UNTIL_NOT_PUBLISHED
  }

  /** None of the ids belongs to an unpublished entry. */
  ghost predicate AllPublished(model: map<Key, Entry>, e: seq<Key>) {
    forall k :: k in e ==> k in model && model[k].until != VALID_UNTIL_NOT_PUBLISHED
  }

  lemma PublishedGrows(model: map<Key, Entry>, e: seq<Key>, i: nat)
    requires i < |e| && AllPublished(model, e[..i]) && e[i] in model
    ensures if model[e[i]].until == VALID_UNTIL_NOT_PUBLISHED then !AllPublished(model, e)
            else AllPublished(model, e[..i + 1])
  {
    assert e[..i + 1] == e[..i] + [e[i]];
  }

  lemma GatheredUnpublished(model: map<Key, Entry>, now: uint32, e: seq<Key>)
    requires KeySet(e) == Overdue(model, now) && forall k :: k in e ==> k in model
    ensures !AllPublished(model, e) <==> now == VALID_UNTIL_EMPTY && Unpublished(model)
  {
    if now == VALID_UNTIL_EMPTY && Unpublished(model) {
      var k :| k in model && model[k].until == VALID_UNTIL_NOT_PUBLISHED;
      assert k in KeySet(e);
    }
    if !AllPublished(model, e) {
      var k :| k in e && model[k].until == VALID_UNTIL_NOT_PUBLISHED;
      assert k in KeySet(e);
    }
  }

  ghost function KeySet(e: seq<Key>): set<Key> {
    set k | k in e
  }

  ghost predicate KeysDistinct(e: seq<Key>) {
    forall i, j :: 0 <= i < j < |e| ==> e[i] != e[j]
  }

  /** The gathered ids are exactly the overdue ones, each once: gaps carry an expiry no clock passes. */
  lemma ExpiredIsOverdue(ids: seq<Key>, until: seq<uint32>, data: seq<Blk>, model: map<Key, Entry>, now: uint32)
    requires Represents(ids, until, data, model) && Distinct(ids) && GapsMarked(ids, until)
    ensures var e := Gather.Expired(ids, until, now); KeySet(e) == Overdue(model, now) && KeysDistinct(e)
  {
    var lanes, e := Gather.Past(until, now), Gather.Expired(ids, until, now);
    forall k: Key
      ensures k in e <==> k in Overdue(model, now)
    {
      Gather.PickedKeys(lanes, ids, k);
      if k in Overdue(model, now) {
        var i :| 0 <= i < |ids| && ids[i] == k;
        assert lanes[i];
      }
    }
    Gather.PickedOnce(lanes, ids);
  }

  /** While ids are removed in order, the next one is still there, and removing it is one step. */
  lemma NextIsThere(model: map<Key, Entry>, e: seq<Key>, i: nat)
    requires KeysDistinct(e) && i < |e| && e[i] in model
    ensures e[i] in model - KeySet(e[..i]) && (model - KeySet(e[..i]))[e[i]] == model[e[i]]
    ensures model - KeySet(e[..i]) - {e[i]} == model - KeySet(e[..i + 1])
  {
    assert e[..i + 1] == e[..i] + [e[i]];
    assert KeySet(e[..i + 1]) == KeySet(e[..i]) + {e[i]};
  }

  lemma NothingExpired(now: uint32)
    ensures Gather.Expired([], [], now) == []
  {
  }

  lemma NothingRemoved(model: map<Key, Entry>, e: seq<Key>)
    ensures model - KeySet(e[..0]) == model && AllPublished(model, e[..0])
  {
  }

  ghost predicate Shrunk(view: seq<BucketView>, view': seq<BucketView>) {
    forall o: Blk :: OwnedIn(view', o) ==> OwnedIn(view, o)
  }

  lemma GivenIsShrunk(base: nat, view: seq<BucketView>, blk: Blk)
    requires AllPartitioned(base, view) && OwnedIn(view, blk)
    ensures Shrunk(view, Given(view, blk))
  {
    FreedIsUnowned(base, view, blk);
  }

  lemma KeptOnward(view: seq<BucketView>, view': seq<BucketView>, m0: seq<byte>, m1: seq<byte>, m2: seq<byte>)
    requires Shrunk(view, view') && Kept(view, m0, m1) && Kept(view', m1, m2)
    ensures Kept(view', m0, m2)
  {
    hide OwnedIn, Slice;
  }

  /** After a block is given back nobody owns it, and everyone else owns what they did. */
  lemma FreedIsUnowned(base: nat, view: seq<BucketView>, blk: Blk)
    requires AllPartitioned(base, view) && OwnedIn(view, blk)
    ensures forall o: Blk :: OwnedIn(Given(view, blk), o) ==> o.data != blk.data && OwnedIn(view, o)
  {
    hide BucketOf, Partitioned;
    forall o: Blk | OwnedIn(Given(view, blk), o)
      ensures o.data != blk.data && OwnedIn(view, o)
    {
      assert OwnedIn(view, o);
      if o.data == blk.data {
        OwnedWithOneSize(base, view, blk, o);
      }
    }
  }

  lemma ShrunkOnward(view: seq<BucketView>, view': seq<BucketView>, view'': seq<BucketView>)
    requires Shrunk(view, view') && Shrunk(view', view'')
    ensures Shrunk(view, view'')
  {
    hide OwnedIn;
  }

  lemma KeptSelf(view: seq<BucketView>, m: seq<byte>)
    ensures Kept(view, m, m) && Shrunk(view, view)
  {
  }

  lemma PutAndRemove(m: map<nat, nat>, p: nat, v: nat)
    requires p !in m
    ensures m[p := v] - {p} == m
  {
  }

  lemma KeptTwice(base: nat, view: seq<BucketView>, m0: seq<byte>, m1: seq<byte>, m2: seq<byte>, blk: Blk)
    requires AllPartitioned(base, view) && OwnedIn(view, blk)
    requires KeptBut(view, m0, m1, blk.data) && KeptBut(Given(view, blk), m1, m2, blk.data)
    ensures Kept(Given(view, blk), m0, m2)
  {
    FreedIsUnowned(base, view, blk);
    hide OwnedIn, Slice, Given, AllPartitioned;
  }
}
