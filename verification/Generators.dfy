/**
 The generator polynomials of qrcode.js: the products of linear factors `getErrorCorrectPolynomial`
 builds, which of them have zero coefficients, and the blocks encoded with them.
 */
module Generators {
  import opened Types
  import opened GaloisField
  import opened ReedSolomon
  import opened Syndromes

  /** `a.multiply([1, gexp(i)])`: `a` shifted up by one, plus `a` times the i-th power of two. */
  ghost function TimesRoot(a: seq<bv8>, i: nat): (v: seq<bv8>)
    ensures |v| == |a| + 1
  {
    Xor(a + [0], [0] + Scaled(a, i))
  }

  /** The product of the first `n` linear factors. */
  ghost function Product(n: nat): (v: seq<bv8>)
    ensures |v| == n + 1 && v[0] == 1
  {
    if n == 0 then [1]
    else
      PlusZero(1);
      TimesRoot(Product(n - 1), n - 1)
  }

  /** Multiplying by a linear factor keeps every root and adds one. */
  lemma TimesRootVanishes(a: seq<bv8>, i: nat, j: nat)
    requires i == j || Eval(a, j) == 0
    ensures Eval(TimesRoot(a, i), j) == 0
  {
    hide Plus, Times, Scaled;
    var up, down := a + [0], [0] + Scaled(a, i);
    EvalXor(up, down, j);
    assert up[..|a|] == a;
    PlusZero(Times(Eval(a, j), j));
    assert Zeros(1) == [0];
    EvalLeadingZeros(1, Scaled(a, i), j);
    EvalScaled(a, i, j);
    TimesOfZero(i);
    TimesOfZero(j);
  }

  lemma {:induction false} ProductVanishes(n: nat, j: nat)
    requires j < n
    ensures Eval(Product(n), j) == 0
  {
    hide Eval, TimesRoot;
    if j < n - 1 {
      ProductVanishes(n - 1, j);
    }
    TimesRootVanishes(Product(n - 1), n - 1, j);
  }

  // ---------- no zero coefficients ----------

  /** Coefficient `k`, zero outside the polynomial. */
  ghost function At(v: seq<bv8>, k: int): bv8 {
    if 0 <= k < |v| then v[k] else 0
  }

  lemma ProductStep(n: nat, k: nat)
    requires 1 <= n && k <= n
    ensures At(Product(n), k) == Plus(At(Product(n - 1), k), Times(At(Product(n - 1), k - 1), n - 1))
  {
    hide Times, Plus, Xor, Scaled;
    assert Product(n) == TimesRoot(Product(n - 1), n - 1);
    hide Product;
    TimesOfZero(n - 1);
    RootStep(Product(n - 1), n - 1, k);
  }

  lemma RootStep(a: seq<bv8>, i: nat, k: nat)
    requires k <= |a|
    ensures TimesRoot(a, i)[k] == Plus(At(a, k), Times(At(a, k - 1), i))
  {
    hide Times, Plus, Xor, Scaled;
    TimesOfZero(i);
  }

  /** What one more linear factor does to the ratio of two neighbouring coefficients. */
  lemma RatioStep(a: bv8, b: bv8, d: bv8, n: nat, k: nat)
    requires n >= 1 && k >= 1
    requires Plus(Times(a, k), a) == Plus(Times(b, n - 1), Times(b, k - 1))
    requires if k == 1 then d == 0 else Plus(Times(b, k - 1), b) == Plus(Times(d, n - 1), Times(d, k - 2))
    ensures var c, c' := Plus(a, Times(b, n - 1)), Plus(b, Times(d, n - 1));
            Plus(Times(c, k), c) == Plus(Times(c', n), Times(c', k - 1))
  {
    hide Times, Plus;
    TimesPlus(a, Times(b, n - 1), k);
    TimesAdds(b, n - 1, k);
    TimesPlus(b, Times(d, n - 1), n);
    TimesPlus(b, Times(d, n - 1), k - 1);
    TimesAdds(d, n - 1, n);
    TimesAdds(d, n - 1, k - 1);
    LowerTerms(b, d, n, k);
    Cancel(Times(a, k), a, Times(b, n - 1), Times(b, k - 1),
           Times(b, n - 1 + k), Times(b, n), Times(d, n - 1 + n), Times(d, n - 1 + (k - 1)));
  }

  lemma LowerTerms(b: bv8, d: bv8, n: nat, k: nat)
    requires n >= 1 && k >= 1
    requires if k == 1 then d == 0 else Plus(Times(b, k - 1), b) == Plus(Times(d, n - 1), Times(d, k - 2))
    ensures Plus(Times(b, n - 1 + k), Times(b, n)) == Plus(Times(d, n - 1 + n), Times(d, n - 1 + (k - 1)))
  {
    hide Times, Plus;
    if k == 1 {
      TimesOfZero(n - 1 + n);
      TimesOfZero(n - 1);
      PlusZero(0);
      PlusZero(Times(b, n));
    } else {
      TimesPlus(Times(b, k - 1), b, n);
      TimesPlus(Times(d, n - 1), Times(d, k - 2), n);
      TimesAdds(b, k - 1, n);
      TimesAdds(d, n - 1, n);
      TimesAdds(d, k - 2, n);
      assert k - 1 + n == n - 1 + k && k - 2 + n == n - 1 + (k - 1);
    }
  }

  lemma Cancel(ak: bv8, a: bv8, p: bv8, q: bv8, r: bv8, s: bv8, t: bv8, u: bv8)
    requires Plus(ak, a) == Plus(p, q) && Plus(r, s) == Plus(t, u)
    ensures Plus(Plus(ak, r), Plus(a, p)) == Plus(Plus(s, t), Plus(q, u))
  {
    hide Plus;
    PlusSwaps(ak, r, a, p);
    PlusCommutes(p, q);
    PlusSwaps(q, p, r, p);
    PlusSwaps(s, t, q, u);
    PlusCommutes(r, s);
    PlusSwaps(s, q, s, r);
    PlusZero(p);
    PlusZero(s);
    PlusZero(Plus(q, r));
  }

  /** The coefficients of a generator follow from each other: (2^k + 1) c[k] = (2^n + 2^(k-1)) c[k-1]. */
  lemma {:induction false} NeighbourRatio(n: nat, k: nat)
    requires 1 <= k <= n + 1
    ensures var c := Product(n);
            Plus(Times(At(c, k), k), At(c, k)) == Plus(Times(At(c, k - 1), n), Times(At(c, k - 1), k - 1))
  {
    hide Times, Product, Plus, At;
    if k == n + 1 {
      Beyond(n);
      TimesOfZero(k);
      PlusZero(0);
      PlusZero(Times(At(Product(n), n), n));
    } else {
      NeighbourRatio(n - 1, k);
      if k >= 2 {
        NeighbourRatio(n - 1, k - 1);
      } else {
        Beyond(n - 1);
      }
      ProductStep(n, k);
      ProductStep(n, k - 1);
      var a := Product(n - 1);
      RatioStep(At(a, k), At(a, k - 1), At(a, k - 2), n, k);
    }
  }

  lemma Beyond(n: nat)
    ensures At(Product(n), n + 1) == 0 == At(Product(n), -1)
  {
    hide Product;
  }

  lemma {:induction false} CoefficientIsNonZero(n: nat, k: nat)
    requires k <= n <= 254
    ensures Product(n)[k] != 0
  {
    hide Times, Product, Plus;
    if k > 0 {
      CoefficientIsNonZero(n, k - 1);
      NeighbourRatio(n, k);
      var x := Product(n)[k - 1];
      PowersDiffer(x, k - 1, n);
      if Product(n)[k] == 0 {
        TimesOfZero(k);
        PlusZero(0);
        PlusIsZeroIff(Times(x, n), Times(x, k - 1));
      }
    }
  }

  /** No generator of degree up to 254 has a zero coefficient. */
  lemma GeneratorsAreNonZero(n: nat)
    requires n <= 254
    ensures AllNonZero(Product(n))
  {
    hide Product;
    forall k | 0 <= k <= n
      ensures Product(n)[k] != 0
    {
      CoefficientIsNonZero(n, k);
    }
  }

  /** The next one has. */
  lemma LongestProductHasZero()
    ensures Product(255)[1] == 0
  {
    assert Times(1, 0) == 1;
    hide Times, Product, Plus;
    var c := Product(255);
    NeighbourRatio(255, 1);
    assert Times(1, 255) == 1 by { SomePowers(); }
    PlusZero(1);
    PlusIsZeroIff(Times(c[1], 1), c[1]);
    if c[1] != 0 {
      NoFixedPoint(c[1], 1);
    }
  }

  // ---------- how the source builds them ----------

  /** What `multiply` returns, or the exception `glog` raises for a zero coefficient. */
  datatype Outcome = Thrown | Poly(num: seq<bv8>)

  /** Multiplication in the field. */
  ghost function Mul(x: bv8, y: bv8): bv8 {
    if x == 0 || y == 0 then 0 else Gexp(Log(x) + Log(y))
  }

  lemma MulByPower(x: bv8, i: nat)
    ensures Gexp(i) != 0 && Mul(x, Gexp(i)) == Times(x, i)
  {
    hide Times, Gexp, Log, Exp;
    GexpIs(i);
    ExpIsNonZero(i % 255);
    if x == 0 {
      TimesOfZero(i);
    } else {
      LogIs(Gexp(i), i % 255);
      GexpIsTimes(x, i % 255);
      TimesReduces(x, i);
    }
  }

  lemma GexpIs(i: nat)
    ensures Gexp(i) == Exp(i % 255)
  {
    hide Exp, Normal;
    NormalIs(i);
    ExpReduces(Normal(i));
  }

  lemma TimesReduces(x: bv8, i: nat)
    requires x != 0
    ensures Times(x, i % 255) == Times(x, i)
  {
    hide Times, Log, Exp;
    LogTimes(x, i);
    LogTimes(x, i % 255);
    ExpReduces(Log(x) + i);
    ExpReduces(Log(x) + i % 255);
    SameRemainder(Log(x), i);
  }

  /** Coefficient `k` of the product, as far as the first `n` coefficients of `a` contribute. */
  ghost function Conv(a: seq<bv8>, e: seq<bv8>, k: nat, n: nat): bv8
    requires n <= |a|
  {
    if n == 0 then 0 else Plus(Conv(a, e, k, n - 1), Term(a[n - 1], e, k, n - 1))
  }

  ghost function Term(x: bv8, e: seq<bv8>, k: nat, i: nat): bv8 {
    if i <= k < i + |e| then Mul(x, e[k - i]) else 0
  }

  /** `multiply`: with two factors it throws exactly when one has a zero coefficient; it also throws when
      both are empty. Otherwise it computes every coefficient of the product (cells an empty factor leaves
      unwritten count as zero). */
  method Multiply(exp: seq<bv8>, log: seq<nat>, a: seq<bv8>, e: seq<bv8>) returns (r: Outcome)
    requires Tables(exp, log)
    ensures r.Thrown? <==> (a == [] && e == []) || (a != [] && e != [] && !(AllNonZero(a) && AllNonZero(e)))
    ensures r.Poly? ==> |r.num| == |a| + |e| - 1
    ensures r.Poly? ==> forall k :: 0 <= k < |r.num| ==> r.num[k] == Conv(a, e, k, |a|)
  {
    hide Tables, Plus, Term;
    if a == [] && e == [] {
      return Thrown;
    }
    var num := seq(|a| + |e| - 1, _ => 0 as bv8);
    var i := 0;
    while i < |a|
      invariant 0 <= i <= |a| && |num| == |a| + |e| - 1
      invariant e != [] ==> AllNonZero(a[..i]) && (i > 0 ==> AllNonZero(e))
      invariant forall k :: 0 <= k < |num| ==> num[k] == Conv(a, e, k, i)
    {
      var row := AddRow(exp, log, num, a[i], e, i);
      if row.Thrown? {
        return Thrown;
      }
      num := row.num;
      i := i + 1;
    }
    r := Poly(num);
    assert a[..i] == a;
  }

  /** The inner loop: one coefficient of the left factor times the right factor. */
  method AddRow(exp: seq<bv8>, log: seq<nat>, was: seq<bv8>, x: bv8, e: seq<bv8>, i: nat) returns (r: Outcome)
    requires Tables(exp, log) && i + |e| <= |was| + 1 && (e != [] ==> i + |e| <= |was|)
    ensures r.Thrown? <==> e != [] && !(x != 0 && AllNonZero(e))
    ensures r.Poly? ==> |r.num| == |was|
    ensures r.Poly? ==> forall k :: 0 <= k < |was| ==> r.num[k] == Plus(was[k], Term(x, e, k, i))
  {
    hide Tables, Plus, Gexp, Log;
    var num := was;
    var j := 0;
    while j < |e|
      invariant 0 <= j <= |e| && |num| == |was| && AllNonZero(e[..j]) && (j > 0 ==> x != 0)
      invariant forall k :: 0 <= k < |was| ==>
                  num[k] == if i <= k < i + j then Plus(was[k], Term(x, e, k, i)) else was[k]
    {
      var l := Glog(exp, log, x);
      if l == None {
        return Thrown;
      }
      var m := Glog(exp, log, e[j]);
      if m == None {
        return Thrown;
      }
      var g := GexpLookup(exp, log, l.value + m.value);
      num := num[i + j := Plus(num[i + j], g)];
      j := j + 1;
    }
    forall k | 0 <= k < |was|
      ensures num[k] == Plus(was[k], Term(x, e, k, i))
    {
      PlusZero(was[k]);
    }
    assert e[..j] == e;
    r := Poly(num);
  }

  /** The leading coefficient of a product is the product of the leading ones and not zero, so that the
      constructor at the end of `multiply` has nothing to strip. */
  lemma {:induction false} LeadOfProduct(a: seq<bv8>, e: seq<bv8>, n: nat)
    requires AllNonZero(a) && AllNonZero(e) && e != [] && 1 <= n <= |a|
    ensures Conv(a, e, 0, n) == Mul(a[0], e[0]) != 0
  {
    hide Plus, Gexp, Log;
    if n == 1 {
      MulIsNonZero(a[0], e[0]);
      PlusZero(Mul(a[0], e[0]));
      assert Conv(a, e, 0, 0) == 0;
    } else {
      LeadOfProduct(a, e, n - 1);
      PlusZero(Mul(a[0], e[0]));
    }
  }

  lemma MulIsNonZero(x: bv8, y: bv8)
    requires x != 0 && y != 0
    ensures Mul(x, y) != 0
  {
    hide Exp, Log, Normal;
    ExpIsNonZero(Normal(Log(x) + Log(y)));
  }

  /** The last coefficient of `a` below position `k` and the one at `k` are all that a linear factor
      brings together. */
  lemma {:induction false} ConvOfLinear(a: seq<bv8>, g: bv8, k: nat, n: nat)
    requires n <= |a|
    ensures Conv(a, [1, g], k, n) ==
            Plus(if k < n then Mul(a[k], 1) else 0, if 1 <= k <= n then Mul(a[k - 1], g) else 0)
  {
    hide Plus, Mul;
    PlusZero(0);
    if n > 0 {
      ConvOfLinear(a, g, k, n - 1);
      PlusZero(Conv(a, [1, g], k, n - 1));
      var x, y := Mul(a[n - 1], 1), Mul(a[n - 1], g);
      PlusZero(x);
      PlusZero(y);
      if k == n - 1 && k > 0 {
        PlusZero(Mul(a[k - 1], g));
        PlusCommutes(Mul(a[k - 1], g), x);
      }
    }
  }

  /** The product with a linear factor is the polynomial shifted, plus the polynomial scaled. */
  lemma ConvIsTimesRoot(a: seq<bv8>, i: nat, k: nat)
    requires k <= |a|
    ensures Conv(a, [1, Gexp(i)], k, |a|) == TimesRoot(a, i)[k]
  {
    hide Plus, Mul, Gexp, Conv, Times, Xor, Scaled;
    ConvOfLinear(a, Gexp(i), k, |a|);
    if k < |a| {
      MulByOne(a[k]);
    }
    if k > 0 {
      MulByPower(a[k - 1], i);
    }
  }

  lemma MulByOne(x: bv8)
    ensures Mul(x, 1) == x
  {
    hide Mul, Gexp;
    MulByPower(x, 0);
    assert Gexp(0) == 1 by { GexpIs(0); }
  }

  /** How many factors the loop of `getErrorCorrectPolynomial` multiplies. */
  function Degree(ecCount: int): nat {
    if ecCount < 0 then 0 else ecCount
  }

  /** `getErrorCorrectPolynomial`: it throws exactly for a degree above 255, and otherwise returns the
      product of the linear factors. */
  method ErrorCorrectPolynomial(exp: seq<bv8>, log: seq<nat>, ecCount: int) returns (r: Outcome)
    requires Tables(exp, log)
    ensures r.Poly? <==> ecCount <= 255
    ensures r.Poly? ==> r.num == Product(Degree(ecCount))
  {
    hide Tables, Plus, Gexp, Conv, TimesRoot, AllNonZero;
    var a := [1];
    var i := 0;
    while i < ecCount
      invariant 0 <= i <= Degree(ecCount) && a == Product(i)
      invariant i <= 255
    {
      var g := GexpLookup(exp, log, i);
      MulByPower(1, i);
      LinearIsNonZero(g);
      var p := Multiply(exp, log, a, [1, g]);
      NonZeroIff(i);
      if p.Thrown? {
        return Thrown;
      }
      forall k | 0 <= k < |p.num|
        ensures p.num[k] == TimesRoot(a, i)[k]
      {
        ConvIsTimesRoot(a, i, k);
      }
      a := p.num;
      i := i + 1;
      assert a == Product(i);
    }
    r := Poly(a);
  }

  lemma NonZeroIff(n: nat)
    requires n <= 255
    ensures AllNonZero(Product(n)) <==> n <= 254
  {
    hide Product;
    if n <= 254 {
      GeneratorsAreNonZero(n);
    } else {
      LongestProductHasZero();
    }
  }

  lemma LinearIsNonZero(g: bv8)
    requires g != 0
    ensures AllNonZero([1, g])
  {
  }

  // ---------- encoded blocks ----------

  /** The error-correction bytes of a block. From degree 255 on only zeros can be encoded. */
  ghost function EcOf(data: seq<bv8>, n: nat): (ec: seq<bv8>)
    ensures |ec| == n
  {
    if n <= 254 then GeneratorsAreNonZero(n); EcBytes(data, Product(n)) else Zeros(n)
  }

  ghost predicate Encodable(data: seq<bv8>, n: nat) {
    n <= 254 || (n == 255 && AllZero(data))
  }

  lemma EncodableIs(data: seq<bv8>, ecCount: int)
    ensures Encodable(data, Degree(ecCount)) <==>
              ecCount <= 254 || (ecCount == 255 && forall i :: 0 <= i < |data| ==> data[i] == 0)
  {
  }

  /** The part of `createBytes` that makes the error-correction bytes of one block: it throws exactly for
      more than 255 of them, and for 255 unless the data is all zeros. */
  method EncodeBlock(exp: seq<bv8>, log: seq<nat>, data: seq<bv8>, ecCount: int) returns (r: Option<seq<bv8>>)
    requires Tables(exp, log)
    ensures r.Some? <==> ecCount <= 254 || (ecCount == 255 && forall i :: 0 <= i < |data| ==> data[i] == 0)
    ensures r.Some? ==> r.value == EcOf(data, Degree(ecCount))
  {
    hide Tables, Product, EcBytes, AllNonZero;
    var poly := ErrorCorrectPolynomial(exp, log, ecCount);
    if poly.Thrown? {
      return None;
    }
    NonZeroIff(Degree(ecCount));
    r := BlockEc(exp, log, data, poly.num);
  }

  /** Every syndrome of an encoded block is zero. */
  lemma SyndromesVanish(data: seq<bv8>, n: nat, j: nat)
    requires j < n && Encodable(data, n)
    ensures Eval(data + EcOf(data, n), j) == 0
  {
    hide Eval, EcBytes, Product;
    if n <= 254 {
      GeneratorsAreNonZero(n);
      ProductVanishes(n, j);
      BlockVanishes(data, Product(n), j);
    } else {
      assert data + Zeros(n) == Zeros(|data| + n);
      EvalZeros(|data| + n, j);
    }
  }

  /** Blocks of up to 255 bytes made from different data of the same length differ in more places than
      they have error-correction bytes. */
  lemma BlocksAreFarApart(data: seq<bv8>, data': seq<bv8>, n: nat)
    requires |data| == |data'| && data != data' && |data| + n <= 255
    ensures |Differences(data + EcOf(data, n), data' + EcOf(data', n))| > n
  {
    hide Eval, EcOf, Differences;
    var u, v := data + EcOf(data, n), data' + EcOf(data', n);
    forall j | 0 <= j < n
      ensures Eval(u, j) == 0 && Eval(v, j) == 0
    {
      SyndromesVanish(data, n, j);
      SyndromesVanish(data', n, j);
    }
    assert u[..|data|] == data && v[..|data|] == data';
    VanishingWordsAreFarApart(u, v, n);
  }

  /** So a received word that differs from a block in at most half as many places as there are
      error-correction bytes determines the data. */
  lemma DataIsDetermined(data: seq<bv8>, data': seq<bv8>, n: nat, received: seq<bv8>)
    requires |data| == |data'| && |received| == |data| + n <= 255
    requires 2 * |Differences(data + EcOf(data, n), received)| <= n
    requires 2 * |Differences(received, data' + EcOf(data', n))| <= n
    ensures data == data'
  {
    hide EcOf, Differences;
    DifferencesAdd(data + EcOf(data, n), received, data' + EcOf(data', n));
    if data != data' {
      BlocksAreFarApart(data, data', n);
    }
  }
}
