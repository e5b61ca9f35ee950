/**
 The reaper's gather pass: the ids of all slots whose expiry lies before `now`, in slot order,
 computed slot by slot or eight lanes at a time.
 */
module Gather {
  import opened Words
  import opened Types

  /** The keys of the lanes that are set, in order. */
  function Pick(lanes: seq<bool>, keys: seq<Key>): (r: seq<Key>)
    requires |lanes| == |keys|
    ensures |r| <= |keys|
  {
    if lanes == [] then []
    else (if lanes[0] then [keys[0]] else []) + Pick(lanes[1..], keys[1..])
  }

  function Past(until: seq<uint32>, now: uint32): (lanes: seq<bool>)
    ensures |lanes| == |until|
    ensures forall i :: 0 <= i < |until| ==> lanes[i] == (until[i] < now)
  {
    seq(|until|, i requires 0 <= i < |until| => until[i] < now)
  }

  /** What the gather pass collects. */
  function Expired(ids: seq<Key>, until: seq<uint32>, now: uint32): seq<Key>
    requires |ids| == |until|
  {
    Pick(Past(until, now), ids)
  }

  lemma {:induction false} PickConcat(a: seq<bool>, k: seq<Key>, b: seq<bool>, l: seq<Key>)
    requires |a| == |k| && |b| == |l|
    ensures Pick(a + b, k + l) == Pick(a, k) + Pick(b, l)
  {
    if a == [] {
      assert a + b == b && k + l == l;
    } else {
      PickConcat(a[1..], k[1..], b, l);
      var head := if a[0] then [k[0]] else [];
      assert (a + b)[1..] == a[1..] + b && (k + l)[1..] == k[1..] + l;
      assert Pick(a + b, k + l) == head + (Pick(a[1..], k[1..]) + Pick(b, l));
      assert Pick(a, k) == head + Pick(a[1..], k[1..]);
    }
  }

  /** Gathering a longer prefix adds what its last stretch holds. */
  lemma ExpiredExtends(ids: seq<Key>, until: seq<uint32>, now: uint32, i: nat, j: nat)
    requires |ids| == |until| && i <= j <= |ids|
    ensures Expired(ids[..j], until[..j], now) ==
            Expired(ids[..i], until[..i], now) + Pick(Past(until[i..j], now), ids[i..j])
  {
    PickConcat(Past(until[..i], now), ids[..i], Past(until[i..j], now), ids[i..j]);
    assert ids[..j] == ids[..i] + ids[i..j];
    assert Past(until[..j], now) == Past(until[..i], now) + Past(until[i..j], now);
  }

  /** A key is picked exactly when one of its lanes is set. */
  lemma {:induction false} PickedKeys(lanes: seq<bool>, keys: seq<Key>, k: Key)
    requires |lanes| == |keys|
    ensures k in Pick(lanes, keys) <==> exists i :: 0 <= i < |lanes| && lanes[i] && keys[i] == k
  {
    if lanes != [] {
      PickedKeys(lanes[1..], keys[1..], k);
      if exists i :: 0 <= i < |lanes| && lanes[i] && keys[i] == k {
        var i :| 0 <= i < |lanes| && lanes[i] && keys[i] == k;
        if i > 0 {
          assert lanes[1..][i - 1] && keys[1..][i - 1] == k;
        }
      }
      if k in Pick(lanes[1..], keys[1..]) {
        var i :| 0 <= i < |lanes| - 1 && lanes[1..][i] && keys[1..][i] == k;
        assert lanes[i + 1] && keys[i + 1] == k;
      }
    }
  }

  /** Different set lanes with different keys are picked as different entries. */
  lemma {:induction false} PickedOnce(lanes: seq<bool>, keys: seq<Key>)
    requires |lanes| == |keys|
    requires forall i, j :: 0 <= i < j < |lanes| && lanes[i] && lanes[j] ==> keys[i] != keys[j]
    ensures forall i, j :: 0 <= i < j < |Pick(lanes, keys)| ==> Pick(lanes, keys)[i] != Pick(lanes, keys)[j]
  {
    if lanes != [] {
      var rest := Pick(lanes[1..], keys[1..]);
      PickedOnce(lanes[1..], keys[1..]);
      if lanes[0] {
        PickedKeys(lanes[1..], keys[1..], keys[0]);
        assert keys[0] !in rest;
        assert Pick(lanes, keys) == [keys[0]] + rest;
      } else {
        assert Pick(lanes, keys) == rest;
      }
    }
  }

  // ---------- one vector of lanes ----------

  /** `x ^ INT32_MIN`: the sign bit flipped. */
  function Biased(x: uint32): uint32 {
    if x < 0x8000_0000 then x + 0x8000_0000 else x - 0x8000_0000
  }

  /** The signed vector comparison of biased words. */
  predicate LaneTest(now: uint32, x: uint32) {
    Signed(Biased(now)) > Signed(Biased(x))
  }

  function Lanes(until: seq<uint32>, now: uint32): (lanes: seq<bool>)
    ensures |lanes| == |until|
  {
    seq(|until|, i requires 0 <= i < |until| => LaneTest(now, until[i]))
  }

  /** Biasing turns the signed comparison into the unsigned one. */
  lemma LanesAreBefore(until: seq<uint32>, now: uint32)
    ensures Lanes(until, now) == Past(until, now)
  {
  }

  /** `movemask`: one bit per lane, lane 0 lowest. */
  function Movemask(lanes: seq<bool>): nat {
    if lanes == [] then 0 else (if lanes[0] then 1 else 0) + 2 * Movemask(lanes[1..])
  }

  /** The number of trailing zero bits. */
  function Ctz(mask: nat): nat
    requires mask > 0
  {
    if mask % 2 == 1 then 0 else 1 + Ctz(mask / 2)
  }

  lemma {:induction false} BitAndSelf(x: nat)
    ensures BitAnd(x, x) == x
  {
    if x > 0 {
      BitAndSelf(x / 2);
    }
  }

  /** `ctz` names the first set lane, and `mask & (mask - 1)` clears just that lane. */
  lemma {:induction false} LowestLane(lanes: seq<bool>, keys: seq<Key>)
    requires |lanes| == |keys| && Movemask(lanes) > 0
    ensures var c := Ctz(Movemask(lanes));
            && c < |lanes| && lanes[c]
            && BitAnd(Movemask(lanes), Movemask(lanes) - 1) == Movemask(lanes[c := false])
            && Pick(lanes, keys) == [keys[c]] + Pick(lanes[c := false], keys)
  {
    var rest := lanes[1..];
    var k := Movemask(rest);
    if lanes[0] {
      ClearOddBit(k);
      assert lanes[0 := false][1..] == rest;
    } else {
      LowestLane(rest, keys[1..]);
      ClearEvenBit(k);
      var c := Ctz(k);
      assert lanes[c + 1 := false][1..] == rest[c := false];
    }
  }

  lemma ClearOddBit(k: nat)
    ensures Ctz(1 + 2 * k) == 0 && BitAnd(1 + 2 * k, 2 * k) == 2 * k
  {
    var m := 1 + 2 * k;
    assert m % 2 == 1 && m / 2 == k && (2 * k) % 2 == 0 && (2 * k) / 2 == k;
    BitAndSelf(k);
  }

  lemma ClearEvenBit(k: nat)
    requires k > 0
    ensures Ctz(2 * k) == 1 + Ctz(k) && BitAnd(2 * k, 2 * k - 1) == 2 * BitAnd(k, k - 1)
  {
    var m := 2 * k;
    assert m % 2 == 0 && m / 2 == k && (m - 1) % 2 == 1 && (m - 1) / 2 == k - 1;
  }

  lemma {:induction false} NoLane(lanes: seq<bool>, keys: seq<Key>)
    requires |lanes| == |keys| && Movemask(lanes) == 0
    ensures Pick(lanes, keys) == []
  {
    if lanes != [] {
      NoLane(lanes[1..], keys[1..]);
    }
  }

  // ---------- the two gather loops ----------

  /** The scalar loop, from slot `start` on; `count` ids are already gathered. */
  method GatherScalar(ids: array<Key>, until: array<uint32>, now: uint32, invalid: array<Key>, start: nat, soFar: nat)
    returns (count: nat)
    requires ids.Length == until.Length == invalid.Length && invalid != ids
    requires start <= ids.Length && soFar <= start
    requires invalid[..soFar] == Expired(ids[..start], until[..start], now)
    modifies invalid
    ensures count <= invalid.Length
    ensures invalid[..count] == Expired(ids[..], until[..], now)
  {
    count := soFar;
    var i := start;
    while i < ids.Length
      invariant start <= i <= ids.Length && count <= i
      invariant invalid[..count] == Expired(ids[..i], until[..i], now)
    {
      ExpiredExtends(ids[..], until[..], now, i, i + 1);
      assert ids[..][..i + 1] == ids[..i + 1] && until[..][..i + 1] == until[..i + 1];
      assert ids[..][..i] == ids[..i] && until[..][..i] == until[..i];
      assert ids[..][i..i + 1] == [ids[i]] && until[..][i..i + 1] == [until[i]];
      assert Past([until[i]], now) == [until[i] < now];
      if until[i] < now {
        invalid[count] := ids[i];
        count := count + 1;
      }
      i := i + 1;
    }
    assert ids[..i] == ids[..] && until[..i] == until[..];
  }

  /** One vector: eight lanes compared at once, the set lanes taken lowest first. */
  method GatherVector(ids: array<Key>, until: array<uint32>, now: uint32, invalid: array<Key>, i: nat, soFar: nat)
    returns (count: nat)
    requires ids.Length == until.Length == invalid.Length && invalid != ids
    requires i + 8 <= ids.Length && soFar <= i
    modifies invalid
    ensures count <= i + 8
    ensures invalid[..count] == old(invalid[..soFar]) + Pick(Past(until[i..i + 8], now), ids[i..i + 8])
  {
    ghost var lanes, keys := Lanes(until[i..i + 8], now), ids[i..i + 8];
    LanesAreBefore(until[i..i + 8], now);
    var mask := Movemask(Lanes(until[i..i + 8], now));
    count := soFar;
    ghost var all := invalid[..soFar] + Pick(lanes, keys);
    while mask != 0
      invariant |lanes| == 8 && keys == ids[i..i + 8] && mask == Movemask(lanes)
      invariant count + |Pick(lanes, keys)| == |all| <= i + 8
      invariant invalid[..count] + Pick(lanes, keys) == all
      decreases |Pick(lanes, keys)|
    {
      LowestLane(lanes, keys);
      var idx := Ctz(mask);
      ghost var before := invalid[..count];
      mask := BitAnd(mask, mask - 1);
      invalid[count] := ids[i + idx];
      lanes := lanes[idx := false];
      count := count + 1;
      assert invalid[..count] == before + [keys[idx]];
    }
    NoLane(lanes, keys);
  }

  /** The vector loop with its scalar tail. */
  method GatherSimd(ids: array<Key>, until: array<uint32>, now: uint32, invalid: array<Key>) returns (count: nat)
    requires ids.Length == until.Length == invalid.Length && invalid != ids
    modifies invalid
    ensures count <= invalid.Length
    ensures invalid[..count] == Expired(ids[..], until[..], now)
  {
    var i := 0;
    count := 0;
    while i + 8 <= ids.Length
      invariant i <= ids.Length && count <= i
      invariant invalid[..count] == Expired(ids[..i], until[..i], now)
    {
      ExpiredExtends(ids[..], until[..], now, i, i + 8);
      assert ids[..][..i + 8] == ids[..i + 8] && until[..][..i + 8] == until[..i + 8];
      assert ids[..][..i] == ids[..i] && until[..][..i] == until[..i];
      assert ids[..][i..i + 8] == ids[i..i + 8] && until[..][i..i + 8] == until[i..i + 8];
      count := GatherVector(ids, until, now, invalid, i, count);
      i := i + 8;
    }
    count := GatherScalar(ids, until, now, invalid, i, count);
  }

  /** `secure_zero` over the scratch array. */
  method ZeroKeys(keys: array<Key>, count: nat)
    requires count <= keys.Length
    modifies keys
    ensures forall i :: 0 <= i < count ==> IsNull(keys[i])
  {
    forall i | 0 <= i < count {
      keys[i] := NULL_KEY;
    }
  }
}
