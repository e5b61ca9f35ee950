/**
 The geometry of the bucket allocator: sizes, capacities, item addresses, the branch-free
 bucket index, and the 8-byte links that free items carry in their own memory.
 */
module Buckets {
  import opened Words

  const LOG_OF_SIZE_MIN: nat := 7
  const LOG_OF_SIZE_MAX: nat := 17
  const BLOB_SIZE_MAX: nat := 131072
  const BUCKETS_COUNT: nat := 11
  const ARENA: nat := 16777216
  const HEADER_SIZE: nat := 32
  const LINK_SIZE: nat := 8

  function Capacity(b: nat): nat
    requires b < BUCKETS_COUNT
  {
    Pow2(LOG_OF_SIZE_MAX - b)
  }

  function ItemSize(b: nat): nat
    requires b < BUCKETS_COUNT
  {
    Pow2(LOG_OF_SIZE_MIN + b)
  }

  // ---------- bindex ----------

  /** The position of the highest set bit: `63 - clz(n)`. */
  function Ilog2(n: nat): nat
    requires n > 0
  {
    if n == 1 then 0 else 1 + Ilog2(n / 2)
  }

  /** The branch-free clamp: a 64-bit word with its sign bit set becomes zero. */
  function Clamped(index: nat): nat {
    var isNegative := index / 0x8000_0000_0000_0000;
    var mask := (isNegative - 1) % U64;
    BitAnd(index, mask)
  }

  /** The source's computation, on wrapping 64-bit words. */
  function BIndex(size: nat): nat
    requires size >= 2
  {
    Clamped((Ilog2(size - 1) - LOG_OF_SIZE_MIN + 1) % U64)
  }

  lemma ClampedWord(index: nat)
    requires index < U64
    ensures Clamped(index) == if index < 0x8000_0000_0000_0000 then index else 0
  {
    hide BitAnd, Pow2;
    if index < 0x8000_0000_0000_0000 {
      assert index / 0x8000_0000_0000_0000 == 0;
      Pow2Of64();
      BitAndLowBits(index, 64);
    } else {
      assert index / 0x8000_0000_0000_0000 == 1;
      BitAndZero(index);
    }
  }

  /** The reference: the least bucket whose items are large enough. */
  function BucketOf(size: nat): (b: nat)
    ensures b < BUCKETS_COUNT
  {
    if size <= 128 then 0
    else if size <= 256 then 1
    else if size <= 512 then 2
    else if size <= 1024 then 3
    else if size <= 2048 then 4
    else if size <= 4096 then 5
    else if size <= 8192 then 6
    else if size <= 16384 then 7
    else if size <= 32768 then 8
    else if size <= 65536 then 9
    else 10
  }

  lemma {:induction false} Ilog2Bounds(n: nat)
    requires n > 0
    ensures Pow2(Ilog2(n)) <= n < 2 * Pow2(Ilog2(n))
  {
    if n > 1 {
      Ilog2Bounds(n / 2);
    }
  }

  lemma Ilog2Is(n: nat, k: nat)
    requires Pow2(k) <= n < 2 * Pow2(k)
    ensures Ilog2(n) == k
  {
    Ilog2Bounds(n);
    var l := Ilog2(n);
    Pow2Monotone(if l < k then l + 1 else k, if l < k then k else l);
    Pow2Monotone(if k < l then k + 1 else l, if k < l then l else k);
  }

  lemma SmallIndex(size: nat)
    requires 2 <= size <= 64
    ensures BIndex(size) == 0
  {
    hide Clamped, Pow2;
    Ilog2Bounds(size - 1);
    var l := Ilog2(size - 1);
    Pow2Table();
    if l >= 6 {
      Pow2Monotone(6, l);
      assert false;
    }
    ClampedWord((l - 6) % U64);
  }

  lemma LargeIndex(size: nat, k: nat)
    requires size >= 2 && 6 <= k <= 17 && Pow2(k) < size <= 2 * Pow2(k)
    ensures BIndex(size) == k - 6
  {
    hide Clamped, Pow2, Ilog2;
    Ilog2Is(size - 1, k);
    ClampedWord(k - 6);
  }

  /** `bindex` picks the least bucket whose item size is at least `size`. */
  lemma BIndexIsLeast(size: nat)
    requires 2 <= size <= BLOB_SIZE_MAX
    ensures BIndex(size) == BucketOf(size) < BUCKETS_COUNT
    ensures size <= ItemSize(BucketOf(size))
    ensures forall b :: 0 <= b < BucketOf(size) ==> ItemSize(b) < size
  {
    Pow2Table();
    if size <= 64 {
      SmallIndex(size);
    } else {
      LargeIndex(size, BucketOf(size) + 6);
      forall b | 0 <= b < BucketOf(size)
        ensures ItemSize(b) < size
      {
        Pow2Monotone(LOG_OF_SIZE_MIN + b, BucketOf(size) + 6);
      }
    }
  }

  lemma Pow2Table()
    ensures Pow2(6) == 64 && Pow2(7) == 128 && Pow2(8) == 256 && Pow2(9) == 512 && Pow2(10) == 1024
    ensures Pow2(11) == 2048 && Pow2(12) == 4096 && Pow2(13) == 8192 && Pow2(14) == 16384
    ensures Pow2(15) == 32768 && Pow2(16) == 65536 && Pow2(17) == 131072 && Pow2(24) == ARENA
  {
  }

  // ---------- items and arenas ----------

  /** The address of item `j` of bucket `b`; arenas follow each other from `base`. */
  function Item(base: nat, b: nat, j: nat): nat
    requires b < BUCKETS_COUNT
  {
    base + b * ARENA + j * ItemSize(b)
  }

  ghost predicate IsItem(base: nat, b: nat, p: nat) {
    b < BUCKETS_COUNT && exists j: nat :: j < Capacity(b) && p == Item(base, b, j)
  }

  /** Every bucket's items exactly fill an arena of the same size. */
  lemma ArenaIsFilled(b: nat)
    requires b < BUCKETS_COUNT
    ensures Capacity(b) * ItemSize(b) == ARENA
  {
    Pow2Add(LOG_OF_SIZE_MAX - b, LOG_OF_SIZE_MIN + b);
    Pow2Table();
  }

  lemma ItemEnds(b: nat, j: nat)
    requires b < BUCKETS_COUNT && j < Capacity(b)
    ensures 0 <= j * ItemSize(b) && j * ItemSize(b) + ItemSize(b) <= ARENA
  {
    ArenaIsFilled(b);
    hide ItemSize, Capacity;
    MulAtMost(j + 1, Capacity(b), ItemSize(b));
    MulAtMost(0, j, ItemSize(b));
    NextMultiple(j, ItemSize(b));
  }

  lemma NextMultiple(j: nat, s: nat)
    ensures (j + 1) * s == j * s + s
  {
  }

  lemma ItemInArena(base: nat, b: nat, p: nat)
    requires IsItem(base, b, p)
    ensures base + b * ARENA <= p
    ensures p + ItemSize(b) <= base + b * ARENA + ARENA
    ensures ItemSize(b) >= 128
  {
    var j: nat :| j < Capacity(b) && p == Item(base, b, j);
    ItemEnds(b, j);
    Pow2Monotone(LOG_OF_SIZE_MIN, LOG_OF_SIZE_MIN + b);
    Pow2Table();
  }

  lemma MulAtMost(a: nat, b: nat, s: nat)
    requires a <= b
    ensures a * s <= b * s
  {
    assert b * s - a * s == (b - a) * s;
  }

  /** Two different items, of the same or of different buckets, share no byte. */
  lemma ItemsDisjoint(base: nat, b: nat, p: nat, c: nat, q: nat)
    requires IsItem(base, b, p) && IsItem(base, c, q) && p != q
    ensures p + ItemSize(b) <= q || q + ItemSize(c) <= p
  {
    hide ItemSize, Capacity;
    if b == c {
      var j: nat :| j < Capacity(b) && p == Item(base, b, j);
      var k: nat :| k < Capacity(c) && q == Item(base, c, k);
      var s := ItemSize(b);
      if j < k {
        MulAtMost(j + 1, k, s);
        NextMultiple(j, s);
      } else if k < j {
        MulAtMost(k + 1, j, s);
        NextMultiple(k, s);
      }
    } else {
      ItemInArena(base, b, p);
      ItemInArena(base, c, q);
    }
  }

  /** Every address of the arenas lies in an item. */
  lemma AddressInItem(base: nat, x: nat) returns (b: nat, p: nat)
    requires base <= x < base + BUCKETS_COUNT * ARENA
    ensures IsItem(base, b, p) && p <= x < p + ItemSize(b)
  {
    hide Pow2;
    b := (x - base) / ARENA;
    var off, s := x - base - b * ARENA, ItemSize(b);
    var j := off / s;
    assert off == s * j + off % s;
    ArenaIsFilled(b);
    if j >= Capacity(b) {
      MulAtMost(Capacity(b), j, s);
      assert false;
    }
    p := Item(base, b, j);
  }

  /** An address is an item of one bucket only. */
  lemma ItemHasOneBucket(base: nat, b: nat, c: nat, p: nat)
    requires IsItem(base, b, p) && IsItem(base, c, p)
    ensures b == c
  {
    ItemInArena(base, b, p);
    ItemInArena(base, c, p);
  }

  /** The loop of `bfootprint` over the first `n` buckets. */
  function Footprint(n: nat): nat
    requires n <= BUCKETS_COUNT
  {
    if n == 0 then HEADER_SIZE * BUCKETS_COUNT
    else Footprint(n - 1) + Capacity(n - 1) * ItemSize(n - 1)
  }

  /** Arenas and bucket headers together exactly fill the footprint: the headers, placed at
      its end, start where the last arena ends. */
  lemma {:induction false} FootprintIsExact(n: nat)
    requires n <= BUCKETS_COUNT
    ensures Footprint(n) == n * ARENA + HEADER_SIZE * BUCKETS_COUNT
  {
    hide Capacity, ItemSize;
    if n > 0 {
      FootprintIsExact(n - 1);
      ArenaIsFilled(n - 1);
    }
  }

  /** The number of items in the first `n` buckets. */
  function TotalCapacity(n: nat): nat
    requires n <= BUCKETS_COUNT
  {
    if n == 0 then 0 else TotalCapacity(n - 1) + Capacity(n - 1)
  }

  lemma {:induction false} TotalCapacityIs(n: nat)
    requires n <= BUCKETS_COUNT
    ensures TotalCapacity(n) == Pow2(18) - Pow2(18 - n)
  {
    hide Pow2;
    if n > 0 {
      TotalCapacityIs(n - 1);
      Pow2Step(18 - n);
    }
  }

  lemma NoBits()
    ensures Pow2(0) == 1
  {
  }

  lemma Pow2Step(n: nat)
    ensures Pow2(n + 1) == 2 * Pow2(n)
  {
  }

  // ---------- links in memory ----------

  function FromLe(s: seq<byte>): nat {
    if s == [] then 0 else s[0] + 256 * FromLe(s[1..])
  }

  function ToLe(v: nat, n: nat): (s: seq<byte>)
    ensures |s| == n
    decreases n
  {
    if n == 0 then [] else [v % 256] + ToLe(v / 256, n - 1)
  }

  /** A pointer written to memory reads back unchanged. */
  lemma {:induction false} LeRoundTrip(v: nat, n: nat)
    requires v < Pow2(8 * n)
    ensures FromLe(ToLe(v, n)) == v
    decreases n
  {
    hide Pow2;
    if n == 0 {
      NoBits();
    } else {
      Pow2Add(8, 8 * n - 8);
      Pow2Of8();
      LeRoundTrip(v / 256, n - 1);
      assert ToLe(v, n)[1..] == ToLe(v / 256, n - 1);
    }
  }

  /** The link word stored at address `p`. */
  function LinkAt(m: seq<byte>, p: nat): nat
    requires p + LINK_SIZE <= |m|
  {
    FromLe(m[p..p + LINK_SIZE])
  }

  /** Memory after copying `s` to address `p`. */
  function Patched(m: seq<byte>, p: nat, s: seq<byte>): (r: seq<byte>)
    requires p + |s| <= |m|
    ensures |r| == |m|
  {
    m[..p] + s + m[p + |s|..]
  }

  lemma PatchedLink(m: seq<byte>, p: nat, v: nat)
    requires p + LINK_SIZE <= |m| && v < U64
    ensures LinkAt(Patched(m, p, ToLe(v, LINK_SIZE)), p) == v
  {
    var s := ToLe(v, LINK_SIZE);
    assert Patched(m, p, s)[p..p + LINK_SIZE] == s;
    Pow2Of64();
    LeRoundTrip(v, LINK_SIZE);
  }

  /** The two memories agree everywhere outside `[lo, hi)`. */
  ghost predicate AgreeOutside(m: seq<byte>, m': seq<byte>, lo: nat, hi: nat) {
    |m| == |m'| && forall x :: 0 <= x < |m| && !(lo <= x < hi) ==> m[x] == m'[x]
  }

  ghost predicate ZeroIn(m: seq<byte>, lo: nat, hi: nat) {
    hi <= |m| && forall x :: lo <= x < hi ==> m[x] == 0
  }
}
