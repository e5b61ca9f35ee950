/**
 The mathematics of open addressing with linear probing on a cyclic table, for any hash
 function and any table size. Nothing here mentions the heap.
 */
module Probing {
  import opened Words
  import opened Types

  /** The index after `i` in a cyclic table of `n` slots. */
  function Next(i: nat, n: nat): nat
    requires i < n
  {
    if i + 1 == n then 0 else i + 1
  }

  /** The number of forward steps from `a` to `b`. */
  function Dist(a: nat, b: nat, n: nat): nat
    requires a < n && b < n
  {
    if a <= b then b - a else b - a + n
  }

  /** Positions counted from the slot after `z`: the cyclic table cut open at `z`. */
  function Pos(z: nat, x: nat, n: nat): nat
    requires z < n && x < n
  {
    Dist(Next(z, n), x, n)
  }

  ghost predicate IsTableSize(n: nat) {
    exists k: nat :: k <= 64 && n == Pow2(k)
  }

  /** Where `key` would like to live: `hash & (n - 1)`. */
  function Home(hash: Key -> nat, key: Key, n: nat): (h: nat)
    requires n > 0
    ensures h < n
  {
    BitAndBound(hash(key) % U64, n - 1);
    Mask(hash(key), n)
  }

  lemma {:induction false} BitAndBound(x: nat, y: nat)
    ensures BitAnd(x, y) <= y
  {
    if x > 0 {
      BitAndBound(x / 2, y / 2);
    }
  }

  /** On table sizes, the masked difference of two indices is their forward distance. */
  lemma MaskedDifference(a: nat, b: nat, n: nat)
    requires IsTableSize(n) && a < n && b < n
    ensures Mask(b - a, n) == Dist(a, b, n)
  {
    var k: nat :| k <= 64 && n == Pow2(k);
    MaskIsMod(b - a, k);
    if a <= b {
      ModUnique(b - a, n, 0, b - a);
    } else {
      ModUnique(b - a, n, -1, b - a + n);
    }
  }

  lemma MaskedSum(a: nat, d: nat, n: nat)
    requires IsTableSize(n) && a < n && d <= n
    ensures Mask(a + d, n) == if a + d < n then a + d else a + d - n
  {
    var k: nat :| k <= 64 && n == Pow2(k);
    MaskIsMod(a + d, k);
    if a + d < n {
      ModUnique(a + d, n, 0, a + d);
    } else {
      ModUnique(a + d, n, 1, a + d - n);
    }
  }

  ghost predicate Distinct(keys: seq<Key>) {
    forall i, j :: 0 <= i < j < |keys| && keys[i] == keys[j] ==> IsNull(keys[i])
  }

  /** A scan from the home of `key` meets slot `j` before slot `i`. */
  ghost predicate Before(hash: Key -> nat, key: Key, j: int, i: int, n: nat) {
    0 <= i < n && 0 <= j < n && Dist(Home(hash, key, n), j, n) < Dist(Home(hash, key, n), i, n)
  }

  /** Every slot a lookup passes on the way from a key's home to its slot is occupied. */
  ghost predicate Reachable(keys: seq<Key>, hash: Key -> nat) {
    forall i, j :: 0 <= i < |keys| && !IsNull(keys[i]) && Before(hash, keys[i], j, i, |keys|) ==> !IsNull(keys[j])
  }

  /** No key's way from its home to its slot steps from `z` to the slot after it. */
  ghost predicate Uncrossed(keys: seq<Key>, hash: Key -> nat, z: nat) {
    z < |keys| &&
    forall i :: 0 <= i < |keys| && !IsNull(keys[i])
      ==> Pos(z, Home(hash, keys[i], |keys|), |keys|) <= Pos(z, i, |keys|)
  }

  ghost predicate WellProbed(keys: seq<Key>, hash: Key -> nat) {
    && IsTableSize(|keys|)
    && Distinct(keys)
    && Reachable(keys, hash)
    && exists z :: Uncrossed(keys, hash, z)
  }

  /** Cut open at an uncrossed boundary, forward distance is a plain difference. */
  lemma PosDifference(z: nat, a: nat, b: nat, n: nat)
    requires z < n && a < n && b < n
    ensures Pos(z, a, n) <= Pos(z, b, n) ==> Dist(a, b, n) == Pos(z, b, n) - Pos(z, a, n)
    ensures Pos(z, a, n) > Pos(z, b, n) ==> Dist(a, b, n) == Pos(z, b, n) - Pos(z, a, n) + n
    ensures Pos(z, z, n) == n - 1
    ensures a != b ==> Pos(z, a, n) != Pos(z, b, n)
  {
  }

  /** A table without keys is well probed. */
  lemma EmptyWellProbed(keys: seq<Key>, hash: Key -> nat)
    requires IsTableSize(|keys|) && forall i :: 0 <= i < |keys| ==> IsNull(keys[i])
    ensures WellProbed(keys, hash)
  {
    assert Uncrossed(keys, hash, 0);
  }

  /** A key stored at `i` is met before any gap, so scanning from its home finds it. */
  lemma AbsentIfGapBeforeKey(keys: seq<Key>, hash: Key -> nat, key: Key, gap: nat)
    requires WellProbed(keys, hash) && !IsNull(key)
    requires gap < |keys| && IsNull(keys[gap])
    requires forall j :: Before(hash, key, j, gap, |keys|) ==> keys[j] != key
    ensures key !in keys
  {
    var n := |keys|;
    var h := Home(hash, key, n);
    forall i | 0 <= i < n
      ensures keys[i] != key
    {
      if Dist(h, i, n) >= Dist(h, gap, n) && i != gap {
        assert Dist(h, gap, n) < Dist(h, i, n);
      }
    }
  }

  /** Putting a new key into the first gap after its home keeps the table well probed;
      the slot just filled is the new uncrossed boundary, even when it was the last gap. */
  lemma InsertKeepsProbing(keys: seq<Key>, hash: Key -> nat, key: Key, slot: nat)
    requires WellProbed(keys, hash) && !IsNull(key) && key !in keys
    requires slot < |keys| && IsNull(keys[slot])
    requires forall j :: Before(hash, key, j, slot, |keys|) ==> !IsNull(keys[j])
    ensures WellProbed(keys[slot := key], hash)
    ensures Uncrossed(keys[slot := key], hash, slot)
  {
    var n, keys' := |keys|, keys[slot := key];
    forall i | 0 <= i < n && !IsNull(keys'[i])
      ensures Pos(slot, Home(hash, keys'[i], n), n) <= Pos(slot, i, n)
    {
      var h := Home(hash, keys'[i], n);
      if i != slot {
        assert Dist(h, slot, n) > Dist(h, i, n) || Dist(h, slot, n) == Dist(h, i, n);
      }
      PosDifference(slot, h, i, n);
    }
    assert Uncrossed(keys', hash, slot);
    forall i, j | 0 <= i < n && !IsNull(keys'[i]) && Before(hash, keys'[i], j, i, n)
      ensures !IsNull(keys'[j])
    {
      if i != slot {
        assert keys'[i] == keys[i];
      }
    }
  }

  /** Storing a key in a gap keeps keys distinct exactly when it was not stored before. */
  lemma DistinctIffNew(keys: seq<Key>, key: Key, slot: nat)
    requires Distinct(keys) && !IsNull(key) && slot < |keys| && IsNull(keys[slot])
    ensures Distinct(keys[slot := key]) <==> key !in keys
  {
    var keys' := keys[slot := key];
    if key in keys {
      var i :| 0 <= i < |keys| && keys[i] == key;
      assert keys'[i] == key == keys'[slot] && i != slot;
    }
  }

  // ---------- backward-shift deletion ----------

  /** The hole has passed over every key that does not need it: each key already scanned
      beyond the hole has its home beyond the hole as well. */
  ghost predicate HoleSkipped(keys: seq<Key>, hash: Key -> nat, z: nat, hole: nat, upTo: int) {
    && z < |keys| && hole < |keys|
    && forall i :: 0 <= i < |keys| && !IsNull(keys[i])
         && Pos(z, hole, |keys|) < Pos(z, i, |keys|) <= upTo
         ==> Pos(z, hole, |keys|) < Pos(z, Home(hash, keys[i], |keys|), |keys|)
  }

  /** Every slot from `lo` to `hi` is occupied. */
  ghost predicate NoGap(keys: seq<Key>, z: nat, lo: nat, hi: nat) {
    && z < |keys| && lo < |keys| && hi < |keys|
    && forall x :: 0 <= x < |keys| && Pos(z, lo, |keys|) <= Pos(z, x, |keys|) <= Pos(z, hi, |keys|) ==> !IsNull(keys[x])
  }

  function Swapped<T>(s: seq<T>, a: nat, b: nat): seq<T>
    requires a < |s| && b < |s|
  {
    s[a := s[b]][b := s[a]]
  }

  /** The source's test decides whether the hole lies on the way to the scanned key. */
  lemma ShiftTest(z: nat, home: nat, hole: nat, next: nat, n: nat)
    requires z < n && home < n && hole < n && next < n && hole != next
    requires Pos(z, home, n) <= Pos(z, next, n)
    ensures Dist(home, hole, n) < Dist(home, next, n)
        <==> Pos(z, home, n) <= Pos(z, hole, n) < Pos(z, next, n)
  {
    PosDifference(z, home, hole, n);
    PosDifference(z, home, next, n);
    PosDifference(z, hole, next, n);
  }

  /** Moving a key back into the hole keeps every key reachable and the boundary uncrossed. */
  lemma ShiftKeepsProbing(keys: seq<Key>, hash: Key -> nat, z: nat, hole: nat, next: nat)
    requires Reachable(keys, hash) && Uncrossed(keys, hash, z)
    requires hole < |keys| && next < |keys| && !IsNull(keys[hole]) && !IsNull(keys[next])
    requires Pos(z, Home(hash, keys[next], |keys|), |keys|)
          <= Pos(z, hole, |keys|) < Pos(z, next, |keys|)
    requires NoGap(keys, z, hole, next)
    ensures Reachable(Swapped(keys, hole, next), hash)
    ensures Uncrossed(Swapped(keys, hole, next), hash, z)
  {
    var n, keys' := |keys|, Swapped(keys, hole, next);
    forall i | 0 <= i < n && !IsNull(keys'[i])
      ensures Pos(z, Home(hash, keys'[i], n), n) <= Pos(z, i, n)
    {
      var was := if i == hole then next else if i == next then hole else i;
      assert keys'[i] == keys[was];
    }
    assert Uncrossed(keys', hash, z);
    forall i, j | 0 <= i < n && !IsNull(keys'[i]) && Before(hash, keys'[i], j, i, n)
      ensures !IsNull(keys'[j])
    {
      var was := if i == hole then next else if i == next then hole else i;
      assert keys'[i] == keys[was];
      ShiftPath(keys, hash, z, hole, next, was, i, j);
    }
  }

  lemma SwapKeepsDistinct(keys: seq<Key>, a: nat, b: nat)
    requires Distinct(keys) && a < |keys| && b < |keys|
    ensures Distinct(Swapped(keys, a, b))
  {
  }

  /** The way to a key's new slot leads only through slots that were occupied. */
  lemma ShiftPath(keys: seq<Key>, hash: Key -> nat, z: nat, hole: nat, next: nat,
                  was: nat, now: nat, j: nat)
    requires Reachable(keys, hash) && Uncrossed(keys, hash, z)
    requires hole < |keys| && next < |keys| && was < |keys| && now < |keys| && j < |keys|
    requires !IsNull(keys[was])
    requires was == now || (was == hole && now == next) || (was == next && now == hole)
    requires Pos(z, Home(hash, keys[was], |keys|), |keys|) <= Pos(z, now, |keys|)
    requires Pos(z, hole, |keys|) < Pos(z, next, |keys|)
    requires NoGap(keys, z, hole, next)
    requires Before(hash, keys[was], j, now, |keys|)
    ensures !IsNull(keys[j])
  {
    var n := |keys|;
    var h := Home(hash, keys[was], n);
    PosDifference(z, h, j, n);
    PosDifference(z, h, now, n);
    PosDifference(z, h, was, n);
    if Dist(h, j, n) >= Dist(h, was, n) {
      assert Pos(z, hole, n) <= Pos(z, j, n) <= Pos(z, next, n);
    }
  }

  /** Once the scan is over the hole can be emptied: no remaining key needs it. */
  lemma HoleIsFree(keys: seq<Key>, hash: Key -> nat, z: nat, hole: nat, gap: nat, wrapped: bool)
    requires IsTableSize(|keys|) && Distinct(keys) && Reachable(keys, hash)
    requires Uncrossed(keys, hash, z) && hole < |keys| && gap < |keys|
    requires wrapped ==> HoleSkipped(keys, hash, z, hole, |keys|)
    requires !wrapped ==> IsNull(keys[gap]) && Pos(z, hole, |keys|) < Pos(z, gap, |keys|)
    requires !wrapped ==> HoleSkipped(keys, hash, z, hole, Pos(z, gap, |keys|))
    ensures WellProbed(keys[hole := NULL_KEY], hash)
  {
    var n, keys' := |keys|, keys[hole := NULL_KEY];
    assert Uncrossed(keys', hash, z);
    forall i, j | 0 <= i < n && !IsNull(keys'[i]) && Before(hash, keys'[i], j, i, n)
      ensures !IsNull(keys'[j])
    {
      var h := Home(hash, keys[i], n);
      assert keys'[i] == keys[i];
      assert !IsNull(keys[j]);
      if j == hole {
        PosDifference(z, h, hole, n);
        PosDifference(z, h, i, n);
        if !wrapped && Pos(z, i, n) > Pos(z, gap, n) {
          PosDifference(z, h, gap, n);
        }
        assert false;
      }
    }
  }

  /** The state of the deletion scan: the erased key travels in the hole, `next` is the last
      slot looked at, and `wrapped` says the scan has gone past the boundary `z`. */
  ghost predicate Scanning(keys: seq<Key>, hash: Key -> nat, z: nat, start: nat, hole: nat, next: nat, wrapped: bool) {
    && start < |keys| && hole < |keys| && next < |keys|
    && Distinct(keys) && Reachable(keys, hash) && Uncrossed(keys, hash, z)
    && Pos(z, start, |keys|) <= Pos(z, hole, |keys|)
    && !IsNull(keys[hole])
    && if wrapped
       then Pos(z, next, |keys|) < Pos(z, start, |keys|) && HoleSkipped(keys, hash, z, hole, |keys|)
       else Pos(z, hole, |keys|) <= Pos(z, next, |keys|) && NoGap(keys, z, start, next)
            && HoleSkipped(keys, hash, z, hole, Pos(z, next, |keys|))
  }

  lemma ScanStarts(keys: seq<Key>, hash: Key -> nat, z: nat, start: nat)
    requires WellProbed(keys, hash) && Uncrossed(keys, hash, z) && start < |keys| && !IsNull(keys[start])
    ensures Scanning(keys, hash, z, start, start, start, false)
  {
    forall x | 0 <= x < |keys| && Pos(z, x, |keys|) == Pos(z, start, |keys|)
      ensures x == start
    {
      PosDifference(z, x, start, |keys|);
    }
  }

  lemma PosOfNext(z: nat, x: nat, n: nat)
    requires z < n && x < n
    ensures Pos(z, Next(x, n), n) == if x == z then 0 else Pos(z, x, n) + 1
    ensures Pos(z, x, n) <= n - 1
    ensures Pos(z, x, n) == n - 1 <==> x == z
  {
  }

  /** Positions tell slots apart. */
  lemma PosInjective(z: nat, x: nat, y: nat, n: nat)
    requires z < n && x < n && y < n && Pos(z, x, n) == Pos(z, y, n)
    ensures x == y
  {
  }

  lemma NoGapExtends(keys: seq<Key>, z: nat, lo: nat, hi: nat)
    requires NoGap(keys, z, lo, hi) && hi != z && !IsNull(keys[Next(hi, |keys|)])
    ensures NoGap(keys, z, lo, Next(hi, |keys|))
  {
    var n, next := |keys|, Next(hi, |keys|);
    PosOfNext(z, hi, n);
    forall x | 0 <= x < n && Pos(z, lo, n) <= Pos(z, x, n) <= Pos(z, next, n)
      ensures !IsNull(keys[x])
    {
      if Pos(z, x, n) == Pos(z, next, n) {
        PosInjective(z, x, next, n);
      }
    }
  }

  lemma HoleSkippedExtends(keys: seq<Key>, hash: Key -> nat, z: nat, hole: nat, hi: nat)
    requires z < |keys| && hi < |keys| && HoleSkipped(keys, hash, z, hole, Pos(z, hi, |keys|)) && hi != z
    requires var next := Next(hi, |keys|);
             Pos(z, hole, |keys|) < Pos(z, next, |keys|) ==>
             Pos(z, hole, |keys|) < Pos(z, Home(hash, keys[next], |keys|), |keys|)
    ensures HoleSkipped(keys, hash, z, hole, Pos(z, Next(hi, |keys|), |keys|))
  {
    var n, next := |keys|, Next(hi, |keys|);
    PosOfNext(z, hi, n);
    forall i | 0 <= i < n && !IsNull(keys[i]) && Pos(z, hole, n) < Pos(z, i, n) <= Pos(z, next, n)
      ensures Pos(z, hole, n) < Pos(z, Home(hash, keys[i], n), n)
    {
      if Pos(z, i, n) == Pos(z, next, n) {
        PosInjective(z, i, next, n);
      }
    }
  }

  /** Stepping onto a key that does not need the hole leaves the table alone. */
  lemma ScanPasses(keys: seq<Key>, hash: Key -> nat, z: nat, start: nat, hole: nat, before: nat, wrapped: bool)
    requires Scanning(keys, hash, z, start, hole, before, wrapped)
    requires Next(before, |keys|) != start && !IsNull(keys[Next(before, |keys|)])
    requires var n, next := |keys|, Next(before, |keys|);
             Dist(Home(hash, keys[next], n), hole, n) >= Dist(Home(hash, keys[next], n), next, n)
    ensures Scanning(keys, hash, z, start, hole, Next(before, |keys|), wrapped || before == z)
  {
    var n, next := |keys|, Next(before, |keys|);
    PosOfNext(z, before, n);
    if wrapped || before == z {
      assert Pos(z, next, n) != Pos(z, start, n) by { PosDifference(z, next, start, n); }
    } else {
      NoGapExtends(keys, z, start, before);
      ShiftTest(z, Home(hash, keys[next], n), hole, next, n);
      HoleSkippedExtends(keys, hash, z, hole, before);
    }
  }

  /** Stepping onto a key that needs the hole moves that key back and the hole forward. */
  lemma ScanShifts(keys: seq<Key>, hash: Key -> nat, z: nat, start: nat, hole: nat, before: nat, wrapped: bool)
    requires Scanning(keys, hash, z, start, hole, before, wrapped)
    requires Next(before, |keys|) != start && !IsNull(keys[Next(before, |keys|)])
    requires var n, next := |keys|, Next(before, |keys|);
             Dist(Home(hash, keys[next], n), hole, n) < Dist(Home(hash, keys[next], n), next, n)
    ensures !wrapped && before != z
    ensures Scanning(Swapped(keys, hole, Next(before, |keys|)), hash, z, start, Next(before, |keys|),
                     Next(before, |keys|), false)
  {
    var n, next := |keys|, Next(before, |keys|);
    PosOfNext(z, before, n);
    ShiftTest(z, Home(hash, keys[next], n), hole, next, n);
    NoGapExtends(keys, z, start, before);
    NoGapShrinks(keys, z, start, hole, next);
    ShiftKeepsProbing(keys, hash, z, hole, next);
    SwapKeepsDistinct(keys, hole, next);
    SwapKeepsNoGap(keys, z, start, next, hole, next);
  }

  lemma NoGapShrinks(keys: seq<Key>, z: nat, lo: nat, mid: nat, hi: nat)
    requires NoGap(keys, z, lo, hi) && mid < |keys| && Pos(z, lo, |keys|) <= Pos(z, mid, |keys|)
    ensures NoGap(keys, z, mid, hi)
  {
  }

  lemma SwapKeepsNoGap(keys: seq<Key>, z: nat, lo: nat, hi: nat, a: nat, b: nat)
    requires NoGap(keys, z, lo, hi) && a < |keys| && b < |keys| && !IsNull(keys[a]) && !IsNull(keys[b])
    ensures NoGap(Swapped(keys, a, b), z, lo, hi)
  {
  }

  lemma ScanEnds(keys: seq<Key>, hash: Key -> nat, z: nat, start: nat, hole: nat, before: nat, wrapped: bool)
    requires IsTableSize(|keys|) && Scanning(keys, hash, z, start, hole, before, wrapped)
    requires Next(before, |keys|) == start || IsNull(keys[Next(before, |keys|)])
    ensures WellProbed(keys[hole := NULL_KEY], hash)
  {
    var n, next := |keys|, Next(before, |keys|);
    PosOfNext(z, before, n);
    if !wrapped && before != z {
      assert IsNull(keys[next]) && Pos(z, hole, n) < Pos(z, next, n);
      assert HoleSkipped(keys, hash, z, hole, Pos(z, next, n)) by {
        forall i | 0 <= i < n && Pos(z, i, n) == Pos(z, next, n)
          ensures i == next
        {
          PosInjective(z, i, next, n);
        }
      }
    }
    HoleIsFree(keys, hash, z, hole, next, wrapped || before == z);
  }

  /** Distinct keys in a table without gaps are as many as there are slots. */
  lemma {:induction false} KeysOfFullTable(keys: seq<Key>)
    requires Distinct(keys) && forall i :: 0 <= i < |keys| ==> !IsNull(keys[i])
    ensures |set k | k in keys| == |keys|
  {
    if |keys| > 0 {
      var last := |keys| - 1;
      var front := keys[..last];
      KeysOfFullTable(front);
      assert keys == front + [keys[last]];
      assert (set k | k in keys) == (set k | k in front) + {keys[last]};
    }
  }
}
