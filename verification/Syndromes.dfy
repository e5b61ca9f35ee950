/**
 What a decoder relies on: an encoded block vanishes wherever its generator does, and a short word
 that vanishes at enough powers of two in a row has many non-zero places.
 */
module Syndromes {
  import opened GaloisField
  import opened ReedSolomon

  /** The value of a polynomial, highest coefficient first, at the j-th power of two (Horner). */
  ghost function Eval(v: seq<bv8>, j: nat): bv8 {
    if v == [] then 0 else Plus(Times(Eval(v[..|v| - 1], j), j), v[|v| - 1])
  }

  ghost function Scaled(v: seq<bv8>, r: nat): (w: seq<bv8>)
    ensures |w| == |v| && forall i :: 0 <= i < |v| ==> w[i] == Times(v[i], r)
  {
    seq(|v|, i requires 0 <= i < |v| => Times(v[i], r))
  }

  // ---------- evaluation is linear ----------

  lemma PlusCommutes(a: bv8, b: bv8)
    ensures Plus(a, b) == Plus(b, a)
  {
  }

  lemma PlusAssociates(a: bv8, b: bv8, c: bv8)
    ensures Plus(Plus(a, b), c) == Plus(a, Plus(b, c))
  {
  }

  lemma PlusSwaps(a: bv8, b: bv8, c: bv8, d: bv8)
    ensures Plus(Plus(a, b), Plus(c, d)) == Plus(Plus(a, c), Plus(b, d))
  {
    hide Plus;
    PlusAssociates(a, b, Plus(c, d));
    PlusAssociates(b, c, d);
    PlusCommutes(b, c);
    PlusAssociates(c, b, d);
    PlusAssociates(a, c, Plus(b, d));
  }

  lemma {:induction false} EvalXor(a: seq<bv8>, b: seq<bv8>, j: nat)
    requires |a| == |b|
    ensures Eval(Xor(a, b), j) == Plus(Eval(a, j), Eval(b, j))
  {
    hide Plus, Times, Xor;
    if a == [] {
      PlusZero(0);
    } else {
      var n := |a| - 1;
      var c := Xor(a, b);
      assert c[..n] == Xor(a[..n], b[..n]);
      EvalXor(a[..n], b[..n], j);
      TimesPlus(Eval(a[..n], j), Eval(b[..n], j), j);
      PlusSwaps(Times(Eval(a[..n], j), j), Times(Eval(b[..n], j), j), a[n], b[n]);
    }
  }

  lemma TimesCommute(x: bv8, m: nat, n: nat)
    ensures Times(Times(x, m), n) == Times(Times(x, n), m)
  {
    hide Times;
    TimesAdds(x, m, n);
    TimesAdds(x, n, m);
  }

  lemma {:induction false} TimesOfZero(n: nat)
    ensures Times(0, n) == 0
  {
    if n > 0 {
      TimesOfZero(n - 1);
    }
  }

  lemma {:induction false} EvalScaled(v: seq<bv8>, r: nat, j: nat)
    ensures Eval(Scaled(v, r), j) == Times(Eval(v, j), r)
  {
    hide Plus, Times, Scaled;
    if v == [] {
      TimesOfZero(r);
    } else {
      var n := |v| - 1;
      assert Scaled(v, r)[..n] == Scaled(v[..n], r);
      EvalScaled(v[..n], r, j);
      TimesCommute(Eval(v[..n], j), r, j);
      TimesPlus(Times(Eval(v[..n], j), j), v[n], r);
    }
  }

  lemma {:induction false} EvalZeros(n: nat, j: nat)
    ensures Eval(Zeros(n), j) == 0
  {
    hide Plus, Times, Zeros;
    if n > 0 {
      assert Zeros(n)[..n - 1] == Zeros(n - 1);
      EvalZeros(n - 1, j);
      TimesOfZero(j);
      PlusZero(0);
    }
  }

  lemma {:induction false} EvalLeadingZeros(n: nat, v: seq<bv8>, j: nat)
    ensures Eval(Zeros(n) + v, j) == Eval(v, j)
  {
    hide Plus, Times, Zeros;
    var w := Zeros(n) + v;
    if v == [] {
      assert w == Zeros(n);
      EvalZeros(n, j);
    } else {
      assert w[..|w| - 1] == Zeros(n) + v[..|v| - 1];
      EvalLeadingZeros(n, v[..|v| - 1], j);
    }
  }

  lemma {:induction false} EvalTrailingZeros(v: seq<bv8>, n: nat, j: nat)
    requires Eval(v, j) == 0
    ensures Eval(v + Zeros(n), j) == 0
  {
    hide Plus, Times, Zeros;
    var w := v + Zeros(n);
    if n == 0 {
      assert w == v;
    } else {
      assert w[..|w| - 1] == v + Zeros(n - 1);
      EvalTrailingZeros(v, n - 1, j);
      TimesOfZero(j);
      PlusZero(0);
    }
  }

  // ---------- multiples of the generator ----------

  lemma ShiftedVanishes(k: Multiple, e: Generator, n: nat, j: nat)
    requires Fits(k, e, n) && Eval(e, j) == 0
    ensures Eval(Shifted(k, e, n), j) == 0
  {
    hide Plus, Times, Zeros, Eval, Shifted, Scaled;
    var v := Scaled(e, k.r);
    assert Shifted(k, e, n) == (Zeros(k.off) + v) + Zeros(n - k.off - |e|);
    EvalScaled(e, k.r, j);
    TimesOfZero(k.r);
    EvalLeadingZeros(k.off, v, j);
    EvalTrailingZeros(Zeros(k.off) + v, n - k.off - |e|, j);
  }

  lemma {:induction false} SumVanishes(ks: seq<Multiple>, e: Generator, n: nat, j: nat)
    requires Eval(e, j) == 0 && forall i :: 0 <= i < |ks| ==> Fits(ks[i], e, n)
    ensures Eval(Sum(ks, e, n), j) == 0
  {
    hide Plus, Times, Zeros, Eval, Shifted, Fits;
    if ks == [] {
      EvalZeros(n, j);
    } else {
      SumVanishes(ks[1..], e, n, j);
      ShiftedVanishes(ks[0], e, n, j);
      EvalXor(Shifted(ks[0], e, n), Sum(ks[1..], e, n), j);
      PlusZero(0);
    }
  }

  /** Wherever the generator vanishes, every block encoded with it vanishes too. */
  lemma BlockVanishes(data: seq<bv8>, e: Generator, j: nat)
    requires Eval(e, j) == 0
    ensures Eval(data + EcBytes(data, e), j) == 0
  {
    hide Eval, Sum, EcBytes, Fits;
    var ks := BlockIsMultiple(data, e);
    SumVanishes(ks, e, |data| + |e| - 1, j);
  }

  // ---------- sparse words ----------

  /** Multiplying by less than a full round of powers moves every non-zero byte. */
  lemma NoFixedPoint(y: bv8, m: nat)
    requires y != 0 && 1 <= m <= 254
    ensures Times(y, m) != y
  {
    hide Times, Log;
    var i := Log(y);
    NoSmallerOrder(m);
    TimesAdds(1, m, i);
    TimesAdds(1, i, m);
    if Times(y, m) == y {
      TimesIsInjective(1, Exp(m), i);
    }
  }

  lemma PowersDiffer(x: bv8, i: nat, j: nat)
    requires x != 0 && i < j <= i + 254
    ensures Times(x, i) != Times(x, j)
  {
    hide Times;
    TimesAdds(x, i, j - i);
    if Times(x, i) == 0 {
      TimesOfZero(i);
      TimesIsInjective(x, 0, i);
    }
    NoFixedPoint(Times(x, i), j - i);
  }

  /** The places where a word is not zero. */
  ghost function Support(v: seq<bv8>): set<nat> {
    set q: nat | q < |v| && v[q] != 0
  }

  /** Every coefficient times its own power: evaluation moves on to the next power. */
  ghost function Weighted(v: seq<bv8>): (w: seq<bv8>)
    ensures |w| == |v| && forall q :: 0 <= q < |v| ==> w[q] == Times(v[q], |v| - 1 - q)
  {
    seq(|v|, q requires 0 <= q < |v| => Times(v[q], |v| - 1 - q))
  }

  lemma {:induction false} EvalWeighted(v: seq<bv8>, j: nat)
    ensures Eval(Weighted(v), j) == Eval(v, j + 1)
  {
    if v != [] {
      var n := |v| - 1;
      var front, x := v[..n], v[n];
      assert Times(x, 0) == x;
      hide Plus, Times, Weighted, Scaled;
      EvalWeighted(front, j);
      forall q | 0 <= q < n
        ensures Weighted(v)[q] == Scaled(Weighted(front), 1)[q]
      {
        TimesAdds(v[q], n - 1 - q, 1);
      }
      assert Weighted(v)[..n] == Scaled(Weighted(front), 1);
      EvalScaled(Weighted(front), 1, j);
      TimesAdds(Eval(front, j + 1), 1, j);
    }
  }

  /** A word with place `p` wiped out and every other place scaled by something that is not zero. */
  ghost function Without(v: seq<bv8>, p: nat): (w: seq<bv8>)
    requires p < |v|
    ensures |w| == |v|
    ensures forall q :: 0 <= q < |v| ==> w[q] == Plus(Times(v[q], |v| - 1 - q), Times(v[q], |v| - 1 - p))
  {
    Xor(Weighted(v), Scaled(v, |v| - 1 - p))
  }

  lemma EvalWithout(v: seq<bv8>, p: nat, j: nat)
    requires p < |v| && Eval(v, j) == 0 && Eval(v, j + 1) == 0
    ensures Eval(Without(v, p), j) == 0
  {
    hide Plus, Times, Weighted, Scaled, Eval, Xor;
    EvalXor(Weighted(v), Scaled(v, |v| - 1 - p), j);
    EvalWeighted(v, j);
    EvalScaled(v, |v| - 1 - p, j);
    TimesOfZero(|v| - 1 - p);
    PlusZero(0);
  }

  lemma SupportWithout(v: seq<bv8>, p: nat)
    requires p < |v| <= 255
    ensures Support(Without(v, p)) == Support(v) - {p}
  {
    hide Plus, Times, Without;
    forall q: nat | q < |v|
      ensures Without(v, p)[q] != 0 <==> v[q] != 0 && q != p
    {
      PlaceWithout(v[q], |v| - 1 - q, |v| - 1 - p);
    }
  }

  lemma PlaceWithout(x: bv8, i: nat, j: nat)
    requires i <= 254 && j <= 254
    ensures Plus(Times(x, i), Times(x, j)) != 0 <==> x != 0 && i != j
  {
    hide Plus, Times;
    PlusIsZeroIff(Times(x, i), Times(x, j));
    if x == 0 {
      TimesOfZero(i);
      TimesOfZero(j);
    } else if i < j {
      PowersDiffer(x, i, j);
    } else if j < i {
      PowersDiffer(x, j, i);
    }
  }

  lemma PlusIsZeroIff(x: bv8, y: bv8)
    ensures Plus(x, y) == 0 <==> x == y
  {
  }

  lemma {:induction false} EvalOfSingle(v: seq<bv8>, p: nat)
    requires p < |v| && forall q :: 0 <= q < |v| && q != p ==> v[q] == 0
    ensures Eval(v, 0) == v[p]
  {
    var n := |v| - 1;
    var front := v[..n];
    assert Times(Eval(front, 0), 0) == Eval(front, 0);
    hide Plus, Times;
    PlusZero(v[p]);
    if p == n {
      assert front == Zeros(n);
      EvalZeros(n, 0);
    } else {
      EvalOfSingle(front, p);
    }
  }

  /** A word of at most 255 places with at most `n` non-zero ones that vanishes at the first `n` powers
      of two is zero everywhere. */
  lemma {:induction false} SparseWordIsZero(v: seq<bv8>, n: nat)
    requires |v| <= 255 && |Support(v)| <= n
    requires forall j :: 0 <= j < n ==> Eval(v, j) == 0
    ensures Support(v) == {}
    decreases n
  {
    hide Eval, Without, Plus;
    if Support(v) != {} {
      var p :| p in Support(v);
      var w := Without(v, p);
      SupportWithout(v, p);
      forall j | 0 <= j < n - 1
        ensures Eval(w, j) == 0
      {
        EvalWithout(v, p, j);
      }
      SparseWordIsZero(w, n - 1);
      assert Support(v) == {p};
      AllButOne(v, p);
      EvalOfSingle(v, p);
    }
  }

  lemma AllButOne(v: seq<bv8>, p: nat)
    requires Support(v) == {p}
    ensures p < |v| && v[p] != 0 && forall q :: 0 <= q < |v| && q != p ==> v[q] == 0
  {
    assert p in Support(v);
    forall q | 0 <= q < |v| && q != p
      ensures v[q] == 0
    {
      assert q !in Support(v);
    }
  }

  /** The places where two words differ. */
  ghost function Differences(u: seq<bv8>, v: seq<bv8>): set<nat>
    requires |u| == |v|
  {
    set q: nat | q < |u| && u[q] != v[q]
  }

  lemma DifferencesAreSupport(u: seq<bv8>, v: seq<bv8>)
    requires |u| == |v|
    ensures Differences(u, v) == Support(Xor(u, v))
  {
    hide Plus, Xor;
    forall q: nat | q < |u|
      ensures u[q] != v[q] <==> Xor(u, v)[q] != 0
    {
      PlusIsZeroIff(u[q], v[q]);
    }
  }

  /** Two different words of at most 255 places that both vanish at the first `n` powers of two differ in
      more than `n` places. */
  lemma VanishingWordsAreFarApart(u: seq<bv8>, v: seq<bv8>, n: nat)
    requires |u| == |v| <= 255 && u != v
    requires forall j :: 0 <= j < n ==> Eval(u, j) == 0 && Eval(v, j) == 0
    ensures |Differences(u, v)| > n
  {
    hide Eval, Plus, Xor;
    DifferencesAreSupport(u, v);
    var q := Difference(u, v);
    assert q in Differences(u, v);
    if |Differences(u, v)| <= n {
      forall j | 0 <= j < n
        ensures Eval(Xor(u, v), j) == 0
      {
        EvalXor(u, v, j);
        PlusZero(0);
      }
      SparseWordIsZero(Xor(u, v), n);
    }
  }

  /** Two words that both differ from a third one in few places differ in few places. */
  lemma DifferencesAdd(u: seq<bv8>, w: seq<bv8>, v: seq<bv8>)
    requires |u| == |w| == |v|
    ensures |Differences(u, v)| <= |Differences(u, w)| + |Differences(w, v)|
  {
    var a, b, c := Differences(u, v), Differences(u, w), Differences(w, v);
    assert a <= b + c;
    SubsetIsSmaller(a, b + c);
  }

  lemma SubsetIsSmaller(a: set<nat>, b: set<nat>)
    requires a <= b
    ensures |a| <= |b|
  {
    assert b == a + (b - a);
  }
}
