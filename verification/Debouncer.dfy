/**
 The per-client debouncer of debouncer.h: a fixed probing table of 1024 entries with wrapping
 32-bit deadlines and clock-sweep eviction.
 */
module Debouncer {
  import opened Words
  import opened Types
  import P = Probing

  const DEB_WINDOW_MS: nat := 150
  const DEB_CAP: nat := 1024
  const U32: nat := 0x1_0000_0000

  function Wrap(x: int): uint32 {
    x % U32
  }

  /** The table as a value: parallel keys and deadlines (key 0 marks a gap), and the sweep counter. */
  datatype Table = Table(keys: seq<nat>, until: seq<uint32>, sweep: uint32)

  ghost function Empty(): (t: Table)
    ensures |t.keys| == |t.until| == DEB_CAP && t.sweep == 0
    ensures forall i :: 0 <= i < DEB_CAP ==> t.keys[i] == 0 && t.until[i] == 0
  {
    Table(seq(DEB_CAP, _ => 0), seq(DEB_CAP, _ => 0), 0)
  }

  /** How the source folds a 64-bit key: `(uint32_t)(key ^ (key >> 32))`. */
  function Fold(key: nat): nat {
    BitXor(key, key / U32) % U32
  }

  /** Where the scan for `key` starts, for any way of folding the key's halves. */
  function Home(fold: nat -> nat, key: nat): (h: nat)
    ensures h < DEB_CAP
  {
    P.BitAndBound(fold(key) % U64, DEB_CAP - 1);
    Mask(fold(key), DEB_CAP)
  }

  /** The scan starts at the low ten bits of the key's two halves, one XORed with the other. */
  lemma HomeIs(key: nat)
    ensures Home(Fold, key) == BitXor(key % 1024, key / 0x1_0000_0000 % 1024)
  {
    hide BitXor, Pow2;
    Pow2Of10();
    var x := BitXor(key, key / U32);
    MaskIsMod(Fold(key), 10);
    ModOfMultiple(x, 1024, 4194304);
    BitXorLowBits(key, key / U32, 10);
  }

  lemma Pow2Of10()
    ensures Pow2(10) == 1024
  {
  }

  function Dist(a: nat, b: nat): nat
    requires a < DEB_CAP && b < DEB_CAP
  {
    P.Dist(a, b, DEB_CAP)
  }

  /** The scan from `home` meets no gap before slot `i`. */
  ghost predicate NoGapBefore(keys: seq<nat>, home: nat, i: nat) {
    && |keys| == DEB_CAP && home < DEB_CAP && i < DEB_CAP
    && forall j :: 0 <= j < DEB_CAP && Dist(home, j) < Dist(home, i) ==> keys[j] != 0
  }

  ghost predicate Full(keys: seq<nat>) {
    forall i :: 0 <= i < |keys| ==> keys[i] != 0
  }

  ghost predicate Distinct(keys: seq<nat>) {
    forall i, j :: 0 <= i < j < |keys| && keys[i] == keys[j] ==> keys[i] == 0
  }

  /** Keys are distinct, and while there are gaps none lies between a key's home and its slot. */
  ghost predicate Inv(t: Table, fold: nat -> nat) {
    && |t.keys| == |t.until| == DEB_CAP
    && Distinct(t.keys)
    && (Full(t.keys) || forall i :: 0 <= i < DEB_CAP && t.keys[i] != 0 ==>
          NoGapBefore(t.keys, Home(fold, t.keys[i]), i))
  }

  /** The slot of a resident key. */
  ghost function SlotOf(keys: seq<nat>, key: nat): (i: nat)
    requires key in keys
    ensures i < |keys| && keys[i] == key
  {
    var i :| 0 <= i < |keys| && keys[i] == key;
    i
  }

  /** The first gap at or after `home`. */
  ghost predicate FirstGap(keys: seq<nat>, home: nat, g: nat) {
    NoGapBefore(keys, home, g) && keys[g] == 0
  }

  ghost function Put(t: Table, i: nat, key: nat, now: uint32): Table
    requires i < |t.keys| == |t.until|
  {
    Table(t.keys[i := key], t.until[i := Wrap(now + DEB_WINDOW_MS)], t.sweep)
  }

  /** The reference: a resident key is admitted unless its deadline lies ahead; a new key takes the
      first gap after its home, or when there is none the slot under the sweep hand. */
  ghost predicate Allows(t: Table, fold: nat -> nat, key: nat, now: uint32, t': Table, admitted: bool)
    requires |t.keys| == |t.until| == DEB_CAP
  {
    if key == 0 then t' == t && admitted
    else if key in t.keys then
      var i := SlotOf(t.keys, key);
      if Signed(Wrap(t.until[i] - now)) > 0 then t' == t && !admitted else t' == Put(t, i, key, now) && admitted
    else if !Full(t.keys) then
      admitted && exists g :: FirstGap(t.keys, Home(fold, key), g) && t' == Put(t, g, key, now)
    else
      admitted && t' == Put(t, t.sweep % DEB_CAP, key, now).(sweep := Wrap(t.sweep + 1))
  }

  lemma EmptyInv(fold: nat -> nat)
    ensures Inv(Empty(), fold)
  {
  }

  /** A resident key sits in one slot only. */
  lemma SlotIs(keys: seq<nat>, key: nat, i: nat)
    requires Distinct(keys) && key != 0 && i < |keys| && keys[i] == key
    ensures SlotOf(keys, key) == i
  {
  }

  /** A gap met on the way from its home proves a key is not resident. */
  lemma AbsentAtGap(t: Table, fold: nat -> nat, key: nat, g: nat)
    requires Inv(t, fold) && key != 0 && FirstGap(t.keys, Home(fold, key), g)
    requires forall j :: 0 <= j < DEB_CAP && Dist(Home(fold, key), j) < Dist(Home(fold, key), g) ==> t.keys[j] != key
    ensures key !in t.keys
  {
    var h := Home(fold, key);
    forall i | 0 <= i < DEB_CAP
      ensures t.keys[i] != key
    {
      if Dist(h, i) >= Dist(h, g) && i != g {
        assert Dist(h, g) < Dist(h, i);
      }
    }
  }

  /** Every call keeps the invariant. */
  lemma AllowKeepsInv(t: Table, fold: nat -> nat, key: nat, now: uint32, t': Table, admitted: bool)
    requires Inv(t, fold) && Allows(t, fold, key, now, t', admitted)
    ensures Inv(t', fold)
    ensures Full(t.keys) ==> Full(t'.keys)
  {
    if key != 0 && key !in t.keys && !Full(t.keys) {
      var g :| FirstGap(t.keys, Home(fold, key), g) && t' == Put(t, g, key, now);
      forall i | 0 <= i < DEB_CAP && t'.keys[i] != 0
        ensures NoGapBefore(t'.keys, Home(fold, t'.keys[i]), i)
      {
        if i != g {
          assert NoGapBefore(t.keys, Home(fold, t.keys[i]), i);
        }
      }
    }
  }

  // ---------- the reference as a function ----------

  lemma {:induction false} FirstGapExists(keys: seq<nat>, home: nat, g: nat) returns (first: nat)
    requires |keys| == DEB_CAP && home < DEB_CAP && g < DEB_CAP && keys[g] == 0
    ensures FirstGap(keys, home, first)
    decreases Dist(home, g)
  {
    if j :| 0 <= j < DEB_CAP && Dist(home, j) < Dist(home, g) && keys[j] == 0 {
      first := FirstGapExists(keys, home, j);
    } else {
      first := g;
    }
  }

  lemma FirstGapIsUnique(keys: seq<nat>, home: nat, g: nat, g': nat)
    requires FirstGap(keys, home, g) && FirstGap(keys, home, g')
    ensures g == g'
  {
    assert Dist(home, g) == Dist(home, g');
  }

  ghost predicate Outcome(t: Table, fold: nat -> nat, key: nat, now: uint32, t': Table, admitted: bool) {
    |t.keys| == |t.until| == DEB_CAP && Allows(t, fold, key, now, t', admitted)
  }

  /** The table a call leaves and its verdict. */
  ghost function Allow(t: Table, fold: nat -> nat, key: nat, now: uint32): (Table, bool) {
    if t', admitted :| Outcome(t, fold, key, now, t', admitted) then (t', admitted) else (t, true)
  }

  lemma AllowIsOutcome(t: Table, fold: nat -> nat, key: nat, now: uint32)
    requires Inv(t, fold)
    ensures Outcome(t, fold, key, now, Allow(t, fold, key, now).0, Allow(t, fold, key, now).1)
  {
    if key != 0 && key !in t.keys && !Full(t.keys) {
      var gap :| 0 <= gap < DEB_CAP && t.keys[gap] == 0;
      var g := FirstGapExists(t.keys, Home(fold, key), gap);
      assert Outcome(t, fold, key, now, Put(t, g, key, now), true);
    } else if key == 0 {
      assert Outcome(t, fold, key, now, t, true);
    } else if key in t.keys {
      var i := SlotOf(t.keys, key);
      if Signed(Wrap(t.until[i] - now)) > 0 {
        assert Outcome(t, fold, key, now, t, false);
      } else {
        assert Outcome(t, fold, key, now, Put(t, i, key, now), true);
      }
    } else {
      assert Outcome(t, fold, key, now, Put(t, t.sweep % DEB_CAP, key, now).(sweep := Wrap(t.sweep + 1)), true);
    }
  }

  /** Nothing is left open: a call has one outcome. */
  lemma AllowIs(t: Table, fold: nat -> nat, key: nat, now: uint32, t': Table, admitted: bool)
    requires Inv(t, fold) && Allows(t, fold, key, now, t', admitted)
    ensures Allow(t, fold, key, now) == (t', admitted)
  {
    AllowIsOutcome(t, fold, key, now);
    hide Allow, Signed, Wrap, Inv, NoGapBefore;
    var r := Allow(t, fold, key, now);
    if key != 0 && key !in t.keys && !Full(t.keys) {
      var g :| FirstGap(t.keys, Home(fold, key), g) && t' == Put(t, g, key, now);
      var g' :| FirstGap(t.keys, Home(fold, key), g') && r.0 == Put(t, g', key, now);
      FirstGapIsUnique(t.keys, Home(fold, key), g, g');
    }
  }

  class DebouncerTable {
    const fold: nat -> nat
    const keys: array<nat>
    const until: array<uint32>
    var sweep: uint32

    ghost function Value(): Table
      reads this, keys, until
    {
      Table(keys[..], until[..], sweep)
    }

    ghost function Repr(): set<object> {
      {this, keys, until}
    }

    /** The table stands for the value `t`, which is well formed. */
    ghost predicate Stands(t: Table)
      reads Repr()
    {
      Value() == t && Inv(t, fold)
    }

    constructor (fold: nat -> nat)
      ensures Value() == Empty() && Stands(Empty()) && this.fold == fold && fresh(Repr())
    {
      this.fold := fold;
      keys := new nat[DEB_CAP](_ => 0);
      until := new uint32[DEB_CAP](_ => 0);
      sweep := 0;
      new;
      assert keys[..] == Empty().keys && until[..] == Empty().until;
      EmptyInv(fold);
    }

    /** Admits or rejects a call for `key` at the wrapped time `now`. */
    method AllowKey(key: nat, now: uint32) returns (admitted: bool)
      requires Inv(Value(), fold)
      modifies this, keys, until
      ensures Allows(old(Value()), fold, key, now, Value(), admitted)
      ensures Inv(Value(), fold)
    {
      ghost var t := Value();
      if key == 0 {
        return true;
      }
      var i := Home(fold, key);
      var p := 0;
      while p < DEB_CAP
        invariant 0 <= p <= DEB_CAP && Value() == t
        invariant forall j :: 0 <= j < DEB_CAP && Dist(i, j) < p ==> t.keys[j] != 0 && t.keys[j] != key
      {
        CapIsTableSize();
        P.MaskedSum(i, p, DEB_CAP);
        var e := Mask(i + p, DEB_CAP);
        assert Dist(i, e) == p;
        if keys[e] == key {
          SlotIs(t.keys, key, e);
          if Signed(Wrap(until[e] - now)) > 0 {
            return false;
          }
          until[e] := Wrap(now + DEB_WINDOW_MS);
          assert Value() == Put(t, e, key, now);
          AllowKeepsInv(t, fold, key, now, Value(), true);
          return true;
        }
        if keys[e] == 0 {
          AbsentAtGap(t, fold, key, e);
          keys[e] := key;
          until[e] := Wrap(now + DEB_WINDOW_MS);
          assert Value() == Put(t, e, key, now);
          AllowKeepsInv(t, fold, key, now, Value(), true);
          return true;
        }
        assert forall j :: 0 <= j < DEB_CAP && Dist(i, j) == p ==> j == e;
        p := p + 1;
      }
      assert Full(t.keys) && key !in t.keys;
      CapIsTableSize();
      SweepSlot(sweep);
      var v := Mask(sweep, DEB_CAP);
      sweep := Wrap(sweep + 1);
      keys[v] := key;
      until[v] := Wrap(now + DEB_WINDOW_MS);
      assert Value() == Put(t, v, key, now).(sweep := sweep);
      AllowKeepsInv(t, fold, key, now, Value(), true);
      return true;
    }
  }

  lemma CapIsTableSize()
    ensures P.IsTableSize(DEB_CAP)
  {
    assert Pow2(10) == DEB_CAP;
  }

  lemma SweepSlot(sweep: uint32)
    ensures Mask(sweep, DEB_CAP) == sweep % DEB_CAP
  {
    assert Pow2(10) == DEB_CAP;
    MaskIsMod(sweep, 10);
  }

  /** The unknown client, and a client without an entry, is admitted; a known one then has an entry. */
  lemma StrangerIsAdmitted(t: Table, fold: nat -> nat, key: nat, now: uint32, t': Table, admitted: bool)
    requires Inv(t, fold) && Outcome(t, fold, key, now, t', admitted)
    ensures key == 0 ==> admitted && t' == t
    ensures key !in t.keys ==> admitted
    ensures key != 0 ==> key in t'.keys
  {
    AllowKeepsInv(t, fold, key, now, t', admitted);
    if key != 0 {
      OwnEntry(t, fold, key, now, t', admitted);
    }
  }

  /** A call drops no key, except that a new key in a full table takes the place of the one under the sweep
      hand. */
  lemma ResidentsStay(t: Table, fold: nat -> nat, key: nat, now: uint32, t': Table, admitted: bool, other: nat)
    requires Inv(t, fold) && Allows(t, fold, key, now, t', admitted) && other in t.keys && other != 0
    ensures other in t'.keys <==> !(key != 0 && key !in t.keys && Full(t.keys) && other == t.keys[t.sweep % DEB_CAP])
  {
    hide Wrap, Signed;
    var i := SlotOf(t.keys, other);
    if key != 0 && key !in t.keys && Full(t.keys) {
      CallOnFull(t, fold, key, now, t', admitted);
      if i != t.sweep % DEB_CAP {
        assert t'.keys[i] == other;
      } else {
        SlotIsAlone(t, fold, other, i);
      }
    } else {
      assert t'.keys[i] == other;
    }
  }

  lemma SlotIsAlone(t: Table, fold: nat -> nat, key: nat, i: nat)
    requires Inv(t, fold) && key != 0 && i < DEB_CAP && t.keys[i] == key
    ensures forall j :: 0 <= j < DEB_CAP && j != i ==> t.keys[j] != key
  {
  }

  // ---------- runs ----------

  /** The calls made so far, each with its unwrapped time in milliseconds, the table it left and its verdict. */
  datatype History = Fresh | Then(before: History, key: nat, time: nat, after: Table, admitted: bool)

  ghost function TableOf(h: History): Table {
    if h.Fresh? then Empty() else h.after
  }

  ghost predicate IsHistory(h: History, fold: nat -> nat) {
    h.Then? ==>
      && IsHistory(h.before, fold)
      && |TableOf(h.before).keys| == |TableOf(h.before).until| == DEB_CAP
      && Allows(TableOf(h.before), fold, h.key, Wrap(h.time), h.after, h.admitted)
  }

  lemma {:induction false} HistoryInv(h: History, fold: nat -> nat)
    requires IsHistory(h, fold)
    ensures Inv(TableOf(h), fold)
  {
    if h.Then? {
      HistoryInv(h.before, fold);
      AllowKeepsInv(TableOf(h.before), fold, h.key, Wrap(h.time), h.after, h.admitted);
    } else {
      EmptyInv(fold);
    }
  }

  /** When `key` was last admitted. */
  ghost function LastAdmitted(h: History, key: nat): Option<nat> {
    if h.Fresh? then None
    else if h.key == key && h.admitted then Some(h.time)
    else LastAdmitted(h.before, key)
  }

  /** A call leaves the slot and deadline of every other key that is still resident alone. */
  lemma OthersStay(t: Table, fold: nat -> nat, key: nat, now: uint32, t': Table, admitted: bool, other: nat)
    requires Inv(t, fold) && Inv(t', fold) && Allows(t, fold, key, now, t', admitted)
    requires other != 0 && other != key && other in t'.keys
    ensures other in t.keys && t'.until[SlotOf(t'.keys, other)] == t.until[SlotOf(t.keys, other)]
  {
    var i := SlotOf(t'.keys, other);
    assert t.keys[i] == other && t.until[i] == t'.until[i];
    SlotIs(t.keys, other, i);
  }

  /** An admitted key is resident afterwards with a deadline one window ahead; a rejected one is untouched. */
  lemma OwnEntry(t: Table, fold: nat -> nat, key: nat, now: uint32, t': Table, admitted: bool)
    requires Inv(t, fold) && Inv(t', fold) && Allows(t, fold, key, now, t', admitted) && key != 0
    ensures key in t'.keys
    ensures admitted ==> t'.until[SlotOf(t'.keys, key)] == Wrap(now + DEB_WINDOW_MS)
    ensures !admitted ==> t' == t
  {
    if admitted {
      var i: nat;
      if key in t.keys {
        i := SlotOf(t.keys, key);
      } else if !Full(t.keys) {
        i :| FirstGap(t.keys, Home(fold, key), i) && t' == Put(t, i, key, now);
      } else {
        i := t.sweep % DEB_CAP;
      }
      assert t'.keys[i] == key;
      SlotIs(t'.keys, key, i);
    }
  }

  /** In every run, a resident key's deadline is one window after its last admitted call. */
  lemma {:induction false} DeadlineIsLastAdmitted(h: History, fold: nat -> nat, key: nat)
    requires IsHistory(h, fold) && key != 0 && key in TableOf(h).keys
    ensures LastAdmitted(h, key).Some?
    ensures |TableOf(h).until| == DEB_CAP == |TableOf(h).keys|
    ensures TableOf(h).until[SlotOf(TableOf(h).keys, key)] == Wrap(LastAdmitted(h, key).value + DEB_WINDOW_MS)
  {
    HistoryInv(h, fold);
    if h.Then? {
      HistoryInv(h.before, fold);
      var t, now := TableOf(h.before), Wrap(h.time);
      if h.key == key {
        OwnEntry(t, fold, key, now, h.after, h.admitted);
        if !h.admitted {
          DeadlineIsLastAdmitted(h.before, fold, key);
        } else {
          WrapSum(h.time, DEB_WINDOW_MS);
        }
      } else {
        if h.key == 0 {
          assert h.after == t;
        } else {
          OthersStay(t, fold, h.key, now, h.after, h.admitted, key);
        }
        DeadlineIsLastAdmitted(h.before, fold, key);
      }
    }
  }

  lemma WrapSum(x: int, y: int)
    ensures Wrap(Wrap(x) + y) == Wrap(x + y)
  {
  }

  lemma WrapDifference(x: int, y: int)
    ensures Wrap(Wrap(x) - Wrap(y)) == Wrap(x - y)
  {
  }

  /** In every run, a call for a resident key is admitted exactly when the time since its last admitted
      call, taken modulo 2^32, is at least the window and at most 2^31 plus the window. */
  lemma AdmittedIff(h: History, fold: nat -> nat)
    requires h.Then? && IsHistory(h, fold) && h.key != 0 && h.key in TableOf(h.before).keys
    ensures LastAdmitted(h.before, h.key).Some?
    ensures var elapsed := h.time - LastAdmitted(h.before, h.key).value;
            h.admitted <==> 150 <= elapsed % 0x1_0000_0000 <= 0x8000_0000 + 150
  {
    hide Wrap, Signed, Inv, NoGapBefore;
    DeadlineIsLastAdmitted(h.before, fold, h.key);
    DeadlineTest(LastAdmitted(h.before, h.key).value, h.time);
  }

  /** The wrapped comparison of a deadline set at `t0` with the time `t`. */
  lemma DeadlineTest(t0: int, t: int)
    ensures Signed(Wrap(Wrap(t0 + DEB_WINDOW_MS) - Wrap(t))) <= 0
       <==> DEB_WINDOW_MS <= (t - t0) % U32 <= 0x8000_0000 + DEB_WINDOW_MS
  {
    WrapDifference(t0 + DEB_WINDOW_MS, t);
    var d := t - t0;
    assert t0 + DEB_WINDOW_MS - t == DEB_WINDOW_MS - d;
    var e := d % U32;
    assert Wrap(DEB_WINDOW_MS - d) == if e <= DEB_WINDOW_MS then DEB_WINDOW_MS - e else DEB_WINDOW_MS - e + U32;
  }

  /** Two admitted calls of a resident key lie at least a window apart, across wrap-around of the clock,
      when less than 2^31 ms pass between them; and after a window such a call is admitted. */
  lemma AdmittedAtLeastAWindowApart(h: History, fold: nat -> nat)
    requires h.Then? && IsHistory(h, fold) && h.key != 0 && h.key in TableOf(h.before).keys
    requires LastAdmitted(h.before, h.key).Some? && 0 <= h.time - LastAdmitted(h.before, h.key).value < 0x8000_0000
    ensures h.admitted <==> h.time - LastAdmitted(h.before, h.key).value >= 150
  {
    AdmittedIff(h, fold);
  }

  /** The clock comparison is not a deadline for ever: a client silent for just over 2^31 ms is refused. */
  lemma LongSilenceIsRefused(fold: nat -> nat, key: nat)
    requires key != 0
    ensures exists h: History :: h.Then? && IsHistory(h, fold) && h.key == key && !h.admitted
              && LastAdmitted(h.before, key) == Some(0) && h.time == 0x8000_0000 + 151
  {
    var t0 := TableOf(Fresh);
    var t1 := Put(t0, Home(fold, key), key, 0);
    assert t0.keys[0] == 0 && FirstGap(t0.keys, Home(fold, key), Home(fold, key));
    assert Allows(t0, fold, key, Wrap(0), t1, true);
    var h1 := Then(Fresh, key, 0, t1, true);
    assert IsHistory(h1, fold);
    HistoryInv(h1, fold);
    assert t1.keys[Home(fold, key)] == key;
    SlotIs(t1.keys, key, Home(fold, key));
    var late := 0x8000_0000 + DEB_WINDOW_MS + 1;
    var h2 := Then(h1, key, late, t1, false);
    assert Allows(t1, fold, key, Wrap(late), t1, false);
    assert IsHistory(h2, fold);
  }

  // ---------- the clock sweep ----------

  ghost predicate Evicts(h: History) {
    h.Then? && h.key != 0 && h.key !in TableOf(h.before).keys && Full(TableOf(h.before).keys)
  }

  /** `h` goes on from `h0`, with `n` evictions in between. */
  ghost predicate Continues(h: History, h0: History, n: nat) {
    if h == h0 then n == 0
    else h.Then? && if Evicts(h) then n > 0 && Continues(h.before, h0, n - 1) else Continues(h.before, h0, n)
  }

  /** Once full, the table stays full with distinct keys. */
  lemma {:induction false} StaysFull(h: History, h0: History, n: nat, fold: nat -> nat)
    requires IsHistory(h, fold) && Continues(h, h0, n) && Full(TableOf(h0).keys)
    ensures Full(TableOf(h).keys) && Distinct(TableOf(h).keys) && |TableOf(h).keys| == DEB_CAP
  {
    HistoryInv(h, fold);
    if h != h0 {
      StaysFull(h.before, h0, if Evicts(h) then n - 1 else n, fold);
      HistoryInv(h.before, fold);
      AllowKeepsInv(TableOf(h.before), fold, h.key, Wrap(h.time), h.after, h.admitted);
    }
  }

  /** The sweep hand does not come back to a slot within the next 1023 evictions, across its wrap. */
  lemma HandMovesOn(s: nat, n: nat)
    requires 1 <= n <= DEB_CAP - 1
    ensures Wrap(s + n) % DEB_CAP != s % DEB_CAP
  {
    ModOfMultiple(s + n, DEB_CAP, 4194304);
    assert (s + n) % DEB_CAP == (s % DEB_CAP + n) % DEB_CAP;
  }

  /** What a call does to the keys and the sweep hand of a full table. */
  lemma CallOnFull(t: Table, fold: nat -> nat, key: nat, now: uint32, t': Table, admitted: bool)
    requires Inv(t, fold) && Full(t.keys) && Allows(t, fold, key, now, t', admitted)
    ensures if key != 0 && key !in t.keys
            then t'.keys == t.keys[t.sweep % DEB_CAP := key] && t'.sweep == Wrap(t.sweep + 1)
            else t'.keys == t.keys && t'.sweep == t.sweep
  {
    hide Wrap, NoGapBefore, Signed;
  }

  /** A key placed by the sweep survives the next 1023 evictions. */
  lemma {:induction false} SweptInSurvives(h: History, h0: History, n: nat, fold: nat -> nat)
    requires IsHistory(h, fold) && IsHistory(h0, fold) && Evicts(h0) && Continues(h, h0, n) && n <= 1023
    ensures |TableOf(h).keys| == DEB_CAP
    ensures TableOf(h).keys[TableOf(h0.before).sweep % DEB_CAP] == h0.key
    ensures TableOf(h).sweep == Wrap(TableOf(h0.before).sweep + 1 + n)
  {
    hide Allows, Inv, Wrap, Full;
    var s := TableOf(h0.before).sweep;
    if h == h0 {
      HistoryInv(h0.before, fold);
      CallOnFull(TableOf(h0.before), fold, h0.key, Wrap(h0.time), h0.after, h0.admitted);
    } else {
      var k := if Evicts(h) then n - 1 else n;
      SweptInSurvives(h.before, h0, k, fold);
      HistoryInv(h0, fold);
      FullAfterEviction(h0, fold);
      StaysFull(h.before, h0, k, fold);
      HistoryInv(h.before, fold);
      CallOnFull(TableOf(h.before), fold, h.key, Wrap(h.time), h.after, h.admitted);
      if Evicts(h) {
        HandMovesOn(s, n);
        WrapSum(s + n, 1);
      }
    }
  }

  lemma FullAfterEviction(h: History, fold: nat -> nat)
    requires IsHistory(h, fold) && Evicts(h)
    ensures Full(h.after.keys)
  {
    hide Inv, Allows, Full;
    HistoryInv(h.before, fold);
    AllowKeepsInv(TableOf(h.before), fold, h.key, Wrap(h.time), h.after, h.admitted);
  }
}
