/**
 The hash table of linear_probing.h over the three parallel arrays of storage.c: ids,
 expiry times and block descriptors. `model` is the finite map the arrays stand for.
 */
module LinearProbing {
  import opened Words
  import opened Types
  import opened Probing

  datatype Entry = Entry(until: uint32, blk: Blk)

  /** The occupied slots are exactly the entries of `m`. */
  ghost predicate Represents(ids: seq<Key>, until: seq<uint32>, data: seq<Blk>, m: map<Key, Entry>) {
    && |ids| == |until| == |data|
    && (forall i :: 0 <= i < |ids| && !IsNull(ids[i]) ==> ids[i] in m && m[ids[i]] == Entry(until[i], data[i]))
    && (forall k :: k in m ==> !IsNull(k) && k in ids)
  }

  lemma SwapKeepsRepresents(ids: seq<Key>, until: seq<uint32>, data: seq<Blk>, m: map<Key, Entry>, a: nat, b: nat)
    requires Represents(ids, until, data, m) && a < |ids| && b < |ids|
    ensures Represents(Swapped(ids, a, b), Swapped(until, a, b), Swapped(data, a, b), m)
  {
    var ids' := Swapped(ids, a, b);
    forall k | k in m
      ensures k in ids'
    {
      var i :| 0 <= i < |ids| && ids[i] == k;
      assert ids'[if i == a then b else if i == b then a else i] == k;
    }
  }

  /** Every gap was a gap before, with the same expiry word. */
  ghost predicate GapsKept(ids0: seq<Key>, until0: seq<uint32>, ids: seq<Key>, until: seq<uint32>) {
    && |ids0| == |until0| == |ids| == |until|
    && forall i :: 0 <= i < |ids| && IsNull(ids[i]) ==> IsNull(ids0[i]) && until[i] == until0[i]
  }

  lemma SwapKeepsGaps(ids0: seq<Key>, until0: seq<uint32>, ids: seq<Key>, until: seq<uint32>, a: nat, b: nat)
    requires GapsKept(ids0, until0, ids, until) && a < |ids| && b < |ids| && !IsNull(ids[a]) && !IsNull(ids[b])
    ensures GapsKept(ids0, until0, Swapped(ids, a, b), Swapped(until, a, b))
  {
  }

  lemma FillKeepsRepresents(ids: seq<Key>, until: seq<uint32>, data: seq<Blk>, m: map<Key, Entry>,
                            slot: nat, id: Key, e: Entry)
    requires Represents(ids, until, data, m) && slot < |ids| && IsNull(ids[slot]) && !IsNull(id) && id !in m
    ensures Represents(ids[slot := id], until[slot := e.until], data[slot := e.blk], m[id := e])
  {
    var ids', m' := ids[slot := id], m[id := e];
    forall k | k in m'
      ensures !IsNull(k) && k in ids'
    {
      if k == id {
        assert ids'[slot] == id;
      } else {
        var i :| 0 <= i < |ids| && ids[i] == k;
        assert ids'[i] == k;
      }
    }
  }

  lemma ClearKeepsRepresents(ids: seq<Key>, until: seq<uint32>, data: seq<Blk>, m: map<Key, Entry>, slot: nat)
    requires Represents(ids, until, data, m) && Distinct(ids) && slot < |ids| && !IsNull(ids[slot])
    ensures Represents(ids[slot := NULL_KEY], until, data, m - {ids[slot]})
  {
    var ids', m' := ids[slot := NULL_KEY], m - {ids[slot]};
    forall k | k in m'
      ensures !IsNull(k) && k in ids'
    {
      var i :| 0 <= i < |ids| && ids[i] == k;
      assert ids'[i] == k;
    }
  }

  /** A table holding fewer entries than slots has a gap. */
  lemma GapExists(ids: seq<Key>, until: seq<uint32>, data: seq<Blk>, m: map<Key, Entry>)
    requires Represents(ids, until, data, m) && Distinct(ids) && |m| < |ids|
    ensures exists i :: 0 <= i < |ids| && IsNull(ids[i])
  {
    if forall i :: 0 <= i < |ids| ==> !IsNull(ids[i]) {
      assert (set k | k in ids) == m.Keys;
      KeysOfFullTable(ids);
      assert false;
    }
  }

  class ProbingTable {
    const hash: Key -> nat
    const ids: array<Key>
    const until: array<uint32>
    const data: array<Blk>
    ghost var model: map<Key, Entry>

    ghost predicate Valid()
      reads this, ids, until, data
    {
      && ids.Length == until.Length == data.Length
      && WellProbed(ids[..], hash)
      && Represents(ids[..], until[..], data[..], model)
    }

    constructor (hash: Key -> nat, size: nat, initial: uint32)
      requires IsTableSize(size)
      ensures Valid() && model == map[]
      ensures fresh(ids) && fresh(until) && fresh(data)
      ensures ids.Length == size && this.hash == hash
      ensures forall i :: 0 <= i < size ==> IsNull(ids[i]) && until[i] == initial
    {
      this.hash := hash;
      ids := new Key[size](_ => NULL_KEY);
      until := new uint32[size](_ => initial);
      data := new Blk[size](_ => NO_BLK);
      model := map[];
      new;
      EmptyWellProbed(ids[..], hash);
    }

    method Swap(a: nat, b: nat)
      requires ids.Length == until.Length == data.Length && a < ids.Length && b < ids.Length
      modifies ids, until, data
      ensures ids[..] == Swapped(old(ids[..]), a, b)
      ensures until[..] == Swapped(old(until[..]), a, b)
      ensures data[..] == Swapped(old(data[..]), a, b)
    {
      if a == b {
        return;
      }
      ids[a], ids[b] := ids[b], ids[a];
      data[a], data[b] := data[b], data[a];
      until[a], until[b] := until[b], until[a];
    }

    /** The slot of `key`, or the table size when it is not stored. */
    method Lookup(key: Key) returns (index: nat)
      requires Valid()
      ensures index < ids.Length ==> ids[index] == key && key in model && model[key] == Entry(until[index], data[index])
      ensures index >= ids.Length ==> index == ids.Length && key !in model
    {
      var n := ids.Length;
      var home := Home(hash, key, n);
      var step := 0;
      while step < n
        invariant 0 <= step <= n
        invariant forall j :: 0 <= j < n && Dist(home, j, n) < step ==> !IsNull(ids[j]) && ids[j] != key
      {
        MaskedSum(home, step, n);
        var idx := Mask(home + step, n);
        assert Dist(home, idx, n) == step;
        if IsNull(ids[idx]) {
          if !IsNull(key) {
            assert forall j :: Before(hash, key, j, idx, n) ==> ids[..][j] != key;
            AbsentIfGapBeforeKey(ids[..], hash, key, idx);
          }
          return n;
        }
        if ids[idx] == key {
          return idx;
        }
        assert forall j :: 0 <= j < n && Dist(home, j, n) == step ==> j == idx;
        step := step + 1;
      }
      assert forall j :: 0 <= j < n ==> Dist(home, j, n) < n && ids[j] != key;
      return n;
    }

    /** The first gap at or after the home of `key`, going round the end of the table. */
    method FindFreeSlot(key: Key) returns (slot: nat)
      requires Valid() && |model| < ids.Length
      ensures slot < ids.Length && IsNull(ids[slot])
      ensures forall j :: Before(hash, key, j, slot, ids.Length) ==> !IsNull(ids[j])
    {
      GapExists(ids[..], until[..], data[..], model);
      ghost var gap :| 0 <= gap < ids.Length && IsNull(ids[gap]);
      slot := ScanForGap(Home(hash, key, ids.Length), gap);
    }

    /** The unbounded scan of lp_find_free_slot; the next gap bounds it. */
    method ScanForGap(home: nat, ghost gap: nat) returns (slot: nat)
      requires home < ids.Length && gap < ids.Length && IsNull(ids[gap])
      ensures slot < ids.Length && IsNull(ids[slot])
      ensures forall j :: 0 <= j < ids.Length && Dist(home, j, ids.Length) < Dist(home, slot, ids.Length) ==>
                !IsNull(ids[j])
    {
      var n := ids.Length;
      if IsNull(ids[home]) {
        return home;
      }
      var i := home + 1;
      ghost var wrapped := false;
      while true
        invariant wrapped ==> i == 0 && forall j :: home <= j < n ==> !IsNull(ids[j])
        invariant !wrapped ==> i == home + 1
        decreases !wrapped
      {
        while i < n
          invariant 0 <= i <= n
          invariant wrapped ==> forall j :: 0 <= j < i || home <= j < n ==> !IsNull(ids[j])
          invariant !wrapped ==> home < i && forall j :: home <= j < i ==> !IsNull(ids[j])
        {
          if IsNull(ids[i]) {
            return i;
          }
          i := i + 1;
        }
        assert !wrapped;
        i := 0;
        wrapped := true;
      }
    }

    /** Stores a new entry in the slot FindFreeSlot chose for it. */
    method Fill(slot: nat, id: Key, e: Entry)
      requires Valid() && !IsNull(id) && id !in model
      requires slot < ids.Length && IsNull(ids[slot])
      requires forall j :: Before(hash, id, j, slot, ids.Length) ==> !IsNull(ids[j])
      modifies this`model, ids, until, data
      ensures Valid() && model == old(model)[id := e]
      ensures ids[..] == old(ids[..])[slot := id] && until[..] == old(until[..])[slot := e.until]
    {
      assert id !in ids[..];
      InsertKeepsProbing(ids[..], hash, id, slot);
      FillKeepsRepresents(ids[..], until[..], data[..], model, slot, id, e);
      ids[slot] := id;
      data[slot] := e.blk;
      until[slot] := e.until;
      model := model[id := e];
      assert ids[..] == old(ids[..])[slot := id];
      assert until[..] == old(until[..])[slot := e.until];
      assert data[..] == old(data[..])[slot := e.blk];
    }

    /** Gives the entry at `index` a new expiry. */
    method SetUntil(index: nat, t: uint32)
      requires Valid() && index < ids.Length && !IsNull(ids[index])
      modifies this`model, until
      ensures Valid() && model == old(model)[ids[index] := old(model)[ids[index]].(until := t)]
      ensures until[..] == old(until[..])[index := t]
    {
      until[index] := t;
      model := model[ids[index] := Entry(t, data[index])];
      assert forall i :: 0 <= i < ids.Length && i != index && !IsNull(ids[i]) ==> ids[..][i] != ids[..][index];
    }

    /** Wipes a gap: zeroes its id again and sets its expiry word. */
    method WipeGap(hole: nat, t: uint32)
      requires Valid() && hole < ids.Length && IsNull(ids[hole])
      modifies ids, until
      ensures Valid() && ids[..] == old(ids[..]) && until[..] == old(until[..])[hole := t]
    {
      ids[hole] := NULL_KEY;
      until[hole] := t;
      assert ids[..] == old(ids[..]);
    }

    /** Clears the stale descriptor in a gap. */
    method ClearGapData(hole: nat)
      requires Valid() && hole < ids.Length && IsNull(ids[hole])
      modifies data
      ensures Valid()
    {
      data[hole] := NO_BLK;
    }

    /** What stays true while Erase scans: the arrays stand for the same map, gaps are as they
        were, and the entry being erased sits in the hole. */
    ghost predicate Carries(ids0: seq<Key>, until0: seq<uint32>, hole: nat, id: Key, e: Entry)
      reads this, ids, until, data
    {
      && Represents(ids[..], until[..], data[..], model)
      && GapsKept(ids0, until0, ids[..], until[..])
      && hole < ids.Length && ids[hole] == id && Entry(until[hole], data[hole]) == e
    }

    /** One step of the scan: moves the key at `next` back into the hole if it needs it. */
    method Visit(ghost z: nat, ghost start: nat, hole: nat, ghost before: nat, next: nat, ghost wrapped: bool,
                 ghost ids0: seq<Key>, ghost until0: seq<uint32>, ghost id: Key, ghost e: Entry)
      returns (newHole: nat, ghost newWrapped: bool)
      requires IsTableSize(ids.Length) && Scanning(ids[..], hash, z, start, hole, before, wrapped)
      requires Carries(ids0, until0, hole, id, e)
      requires next == Next(before, ids.Length) && next != start && !IsNull(ids[next])
      modifies ids, until, data
      ensures Scanning(ids[..], hash, z, start, newHole, next, newWrapped)
      ensures Carries(ids0, until0, newHole, id, e)
    {
      hide Distinct, Reachable, Uncrossed, NoGap, HoleSkipped;
      var n := ids.Length;
      var home := Home(hash, ids[next], n);
      MaskedDifference(home, hole, n);
      MaskedDifference(home, next, n);
      if Mask(hole - home, n) < Mask(next - home, n) {
        ScanShifts(ids[..], hash, z, start, hole, before, wrapped);
        SwapKeepsRepresents(ids[..], until[..], data[..], model, hole, next);
        SwapKeepsGaps(ids0, until0, ids[..], until[..], hole, next);
        Swap(hole, next);
        assert ids[next] == ids[..][next] && until[next] == until[..][next] && data[next] == data[..][next];
        return next, false;
      } else {
        ScanPasses(ids[..], hash, z, start, hole, before, wrapped);
        return hole, wrapped || before == z;
      }
    }

    /** The deletion scan: afterwards no key but the erased one needs the hole. */
    method ShiftBack(start: nat, ghost ids0: seq<Key>, ghost until0: seq<uint32>, ghost id: Key, ghost e: Entry)
      returns (hole: nat)
      requires WellProbed(ids[..], hash) && start < ids.Length && !IsNull(ids[start])
      requires Carries(ids0, until0, start, id, e)
      modifies ids, until, data
      ensures Carries(ids0, until0, hole, id, e)
      ensures Distinct(ids[..]) && WellProbed(ids[..][hole := NULL_KEY], hash)
    {
      hide Distinct, Reachable, Uncrossed, NoGap, HoleSkipped;
      var n := ids.Length;
      ghost var z: nat :| Uncrossed(ids[..], hash, z);
      ScanStarts(ids[..], hash, z, start);
      hole := start;
      var next: nat := hole;
      ghost var wrapped, left := false, n;
      while true
        invariant next < n && IsTableSize(n)
        invariant left == if next == start then n else Dist(next, start, n)
        invariant Scanning(ids[..], hash, z, start, hole, next, wrapped)
        invariant Carries(ids0, until0, hole, id, e)
        decreases left
      {
        ghost var before := next;
        MaskedSum(next, 1, n);
        next := Mask(next + 1, n);
        if IsNull(ids[next]) || next == start {
          ScanEnds(ids[..], hash, z, start, hole, before, wrapped);
          return;
        }
        left := Dist(next, start, n);
        hole, wrapped := Visit(z, start, hole, before, next, wrapped, ids0, until0, id, e);
      }
    }

    /** Removes the entry at `start`, shifting later keys back over the hole it leaves.
        Returns where the removed entry's descriptor and expiry ended up. */
    method Erase(start: nat) returns (hole: nat)
      requires Valid() && start < ids.Length && !IsNull(ids[start])
      modifies this`model, ids, until, data
      ensures Valid() && model == old(model) - {old(ids[start])}
      ensures hole < ids.Length && IsNull(ids[hole])
      ensures Entry(until[hole], data[hole]) == old(Entry(until[start], data[start]))
      ensures GapsKept(old(ids[..]), old(until[..]), ids[..][hole := old(ids[start])], until[..])
    {
      hide Distinct, WellProbed, Represents;
      ghost var id := ids[start];
      hole := ShiftBack(start, ids[..], until[..], id, Entry(until[start], data[start]));
      ghost var ids1, until1, data1 := ids[..], until[..], data[..];
      ClearKeepsRepresents(ids1, until1, data1, model, hole);
      model := model - {id};
      ids[hole] := NULL_KEY;
      assert ids[..] == ids1[hole := NULL_KEY] && until[..] == until1 && data[..] == data1;
      assert ids[..][hole := id] == ids1;
    }
  }
}
