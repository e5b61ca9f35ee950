/**
 Error-correction blocks of qrcode.js (section 7.5.2 of ISO/IEC 18004:2015): polynomial remainders
 over the field tables.
 */
module ReedSolomon {
  import opened Types
  import opened GaloisField

  /** A coefficient cell of a JavaScript array: a number, or a hole that was never written. */
  datatype Coef = Hole | Num(v: bv8)

  function Val(c: Coef): bv8 {
    if c.Num? then c.v else 0
  }

  /** The exponent of a non-zero byte: what the logarithm table holds. */
  ghost function Log(x: bv8): (i: nat)
    requires x != 0
    ensures i < 255 && Exp(i) == x
  {
    ExpHits(x);
    var i: nat :| i < 255 && Exp(i) == x;
    i
  }

  lemma ExpHits(x: bv8)
    requires x != 0
    ensures exists i: nat :: i < 255 && Exp(i) == x
  {
    hide Exp;
    var i := ExpNumIsSurjective(x as int);
    SameNumber(Exp(i), x);
  }

  lemma SameNumber(x: bv8, y: bv8)
    requires x as int == y as int
    ensures x == y
  {
    assert (x as int) as bv8 == x && (y as int) as bv8 == y;
  }

  lemma LogIs(x: bv8, i: nat)
    requires i < 255 && Exp(i) == x && x != 0
    ensures Log(x) == i
  {
    hide Exp;
    if Log(x) < i {
      ExpIsInjective(Log(x), i);
    } else if i < Log(x) {
      ExpIsInjective(i, Log(x));
    }
  }

  /** The two normalising loops of `gexp`. */
  function Normal(n: int): (r: nat)
    ensures r < 256
    decreases if n < 0 then -n else n
  {
    if n < 0 then (if n < -255 then Normal(n + 255) else n + 255)
    else if n >= 256 then Normal(n - 255)
    else n
  }

  function Gexp(n: int): bv8 {
    Exp(Normal(n))
  }

  /** Adding exponents multiplies: `gexp(glog(x) + r)` is `x` times the r-th power of the generator. */
  lemma GexpIsTimes(x: bv8, r: int)
    requires x != 0
    ensures Gexp(Log(x) + r) == Times(x, r % 255)
  {
    hide Times, Exp, Normal, Log;
    NormalIs(Log(x) + r);
    ExpReduces(Normal(Log(x) + r));
    LogTimes(x, r % 255);
    ExpReduces(Log(x) + r % 255);
    SameRemainder(Log(x), r);
  }

  lemma SameRemainder(a: int, r: int)
    ensures (a + r) % 255 == (a + r % 255) % 255
  {
  }

  lemma LogTimes(x: bv8, n: nat)
    requires x != 0
    ensures Times(x, n) == Exp(Log(x) + n)
  {
    hide Log;
    TimesAdds(1, Log(x), n);
  }

  lemma NormalIs(n: int)
    ensures Normal(n) % 255 == n % 255
  {
    hide Normal;
    var k := NormalSteps(n);
    SameResidue(n, k);
  }

  lemma SameResidue(n: int, k: int)
    ensures (n + 255 * k) % 255 == n % 255
  {
    var a, b := n % 255, (n + 255 * k) % 255;
    var d := n / 255 + k - (n + 255 * k) / 255;
    assert b - a == 255 * d;
  }

  lemma {:induction false} NormalSteps(n: int) returns (k: int)
    ensures Normal(n) == n + 255 * k
    decreases if n < 0 then -n else n
  {
    k := 0;
    if n < -255 {
      k := NormalSteps(n + 255);
      k := k + 1;
    } else if n < 0 {
      k := 1;
    } else if n >= 256 {
      k := NormalSteps(n - 255);
      k := k - 1;
    }
  }

  predicate AllNonZero(v: seq<bv8>) {
    forall i :: 0 <= i < |v| ==> v[i] != 0
  }

  type Generator = e: seq<bv8> | |e| > 0 && AllNonZero(e) witness [1]

  /** `new QRPolynomial(num, 0)`: leading zeros dropped; a hole is not equal to zero and stops it. */
  function Strip(num: seq<Coef>): (r: seq<Coef>)
    ensures |r| <= |num| && r == num[|num| - |r|..]
    ensures forall i :: 0 <= i < |num| - |r| ==> num[i] == Num(0)
    ensures r != [] ==> r[0] != Num(0)
  {
    if num != [] && num[0] == Num(0) then Strip(num[1..]) else num
  }

  /** What every polynomial of a remainder computation looks like: numbers, then at most `ec` holes,
      and no leading zero. */
  ghost predicate Shaped(p: seq<Coef>, ec: nat) {
    HolesLast(p, ec) && (p != [] ==> p[0] != Num(0))
  }

  ghost predicate HolesLast(p: seq<Coef>, ec: nat) {
    && (forall i, j :: 0 <= i < j < |p| && p[i].Hole? ==> p[j].Hole?)
    && (|p| > ec ==> p[|p| - ec - 1].Num?)
  }

  /** One round of `mod`: the generator, scaled to cancel the leading coefficient, is XORed in. */
  ghost function Reduced(p: seq<Coef>, e: Generator): (num: seq<Coef>)
    requires |p| >= |e| && Shaped(p, |e| - 1)
    ensures |num| == |p| && num[0] == Num(0)
    ensures forall i :: |e| <= i < |p| ==> num[i] == p[i]
    ensures forall i :: 0 <= i < |e| ==> num[i] == Num(Plus(Val(p[i]), Gexp(Log(e[i]) + Ratio(p, e))))
  {
    LeadCancels(p, e);
    seq(|p|, i requires 0 <= i < |p| => if i < |e| then Num(Plus(Val(p[i]), Gexp(Log(e[i]) + Ratio(p, e)))) else p[i])
  }

  ghost function Ratio(p: seq<Coef>, e: Generator): int
    requires |p| >= |e| && Shaped(p, |e| - 1)
  {
    Log(p[0].v) - Log(e[0])
  }

  lemma LeadCancels(p: seq<Coef>, e: Generator)
    requires |p| >= |e| && Shaped(p, |e| - 1)
    ensures p[0].Num? && p[0].v != 0
    ensures Plus(Val(p[0]), Gexp(Log(e[0]) + Ratio(p, e))) == 0
  {
    hide Exp;
  }

  /** After a round the stripped polynomial has the same shape and is shorter. */
  lemma ReducedIsShaped(p: seq<Coef>, e: Generator)
    requires |p| >= |e| && Shaped(p, |e| - 1)
    ensures Shaped(Strip(Reduced(p, e)), |e| - 1)
    ensures |Strip(Reduced(p, e))| < |p|
  {
    hide Plus, Times, Gexp, Log, Ratio, Reduced, Strip, HolesLast;
    ReducedHolesLast(p, e);
    StripKeepsHolesLast(Reduced(p, e), |e| - 1);
  }

  lemma ReducedHolesLast(p: seq<Coef>, e: Generator)
    requires |p| >= |e| && Shaped(p, |e| - 1)
    ensures HolesLast(Reduced(p, e), |e| - 1)
  {
    hide Plus, Times, Gexp, Log, Ratio, Reduced;
  }

  lemma StripKeepsHolesLast(num: seq<Coef>, ec: nat)
    requires HolesLast(num, ec)
    ensures HolesLast(Strip(num), ec)
  {
    hide Strip;
    var r := Strip(num);
    var t := |num| - |r|;
    assert forall i :: 0 <= i < |r| ==> r[i] == num[i + t];
  }

  /** `mod`: rounds until the polynomial is shorter than the generator. */
  ghost function Mod(p: seq<Coef>, e: Generator): (r: seq<Coef>)
    requires Shaped(p, |e| - 1)
    ensures |r| < |e|
    decreases |p|
  {
    if |p| < |e| then p
    else
      ReducedIsShaped(p, e);
      Mod(Strip(Reduced(p, e)), e)
  }

  // ---------- the remainder is a remainder ----------

  /** A polynomial as a vector of `n` coefficients, aligned at the lowest one. */
  ghost function Align(p: seq<Coef>, n: nat): (v: seq<bv8>)
    requires |p| <= n
    ensures |v| == n
    ensures forall i :: 0 <= i < n - |p| ==> v[i] == 0
    ensures forall i :: n - |p| <= i < n ==> v[i] == Val(p[i - (n - |p|)])
  {
    seq(n, i requires 0 <= i < n => if i < n - |p| then 0 else Val(p[i - (n - |p|)]))
  }

  /** The generator times the r-th power of two in the field, shifted to start at `off`. */
  datatype Multiple = Multiple(r: nat, off: nat)

  ghost predicate Fits(k: Multiple, e: Generator, n: nat) {
    k.off + |e| <= n
  }

  ghost function Shifted(k: Multiple, e: Generator, n: nat): (v: seq<bv8>)
    ensures |v| == n
    ensures forall i :: 0 <= i < n && k.off <= i < k.off + |e| ==> v[i] == Times(e[i - k.off], k.r)
    ensures forall i :: 0 <= i < n && !(k.off <= i < k.off + |e|) ==> v[i] == 0
  {
    seq(n, i requires 0 <= i < n => if k.off <= i < k.off + |e| then Times(e[i - k.off], k.r) else 0)
  }

  ghost function Xor(a: seq<bv8>, b: seq<bv8>): (v: seq<bv8>)
    requires |a| == |b|
    ensures |v| == |a| && forall i :: 0 <= i < |a| ==> v[i] == Plus(a[i], b[i])
  {
    seq(|a|, i requires 0 <= i < |a| => Plus(a[i], b[i]))
  }

  ghost function Zeros(n: nat): (v: seq<bv8>)
    ensures |v| == n && forall i :: 0 <= i < n ==> v[i] == 0
  {
    seq(n, _ => 0)
  }

  /** The sum of shifted scalar multiples of the generator. */
  ghost function Sum(ks: seq<Multiple>, e: Generator, n: nat): (v: seq<bv8>)
    ensures |v| == n
  {
    if ks == [] then Zeros(n) else Xor(Shifted(ks[0], e, n), Sum(ks[1..], e, n))
  }

  lemma StripKeepsAlign(num: seq<Coef>, n: nat)
    requires |num| <= n
    ensures Align(Strip(num), n) == Align(num, n)
  {
    hide Strip, Align, Val;
    if Align(Strip(num), n) != Align(num, n) {
      var i := Difference(Align(Strip(num), n), Align(num, n));
      StripKeepsCell(num, n, i);
    }
  }

  /** Two different vectors of the same length differ in some cell. */
  lemma Difference(a: seq<bv8>, b: seq<bv8>) returns (i: nat)
    requires |a| == |b| && a != b
    ensures i < |a| && a[i] != b[i]
  {
    i :| i < |a| && a[i] != b[i];
  }

  lemma StripKeepsCell(num: seq<Coef>, n: nat, i: nat)
    requires |num| <= n && i < n
    ensures Align(Strip(num), n)[i] == Align(num, n)[i]
  {
    hide Strip, Align, Val;
    var r, d := Strip(num), n - |num|;
    if i < d {
      AlignBefore(num, n, i);
      AlignBefore(r, n, i);
    } else if i < n - |r| {
      AlignBefore(r, n, i);
      AlignWithin(num, n, i);
      StrippedCell(num, i - d);
      ValOfZero();
    } else {
      AlignWithin(r, n, i);
      AlignWithin(num, n, i);
      StripCell(num, i - d);
    }
  }

  lemma AlignBefore(p: seq<Coef>, n: nat, i: nat)
    requires |p| <= n && i < n - |p|
    ensures Align(p, n)[i] == 0
  {
    hide Align;
  }

  lemma AlignWithin(p: seq<Coef>, n: nat, i: nat)
    requires |p| <= n && n - |p| <= i < n
    ensures Align(p, n)[i] == Val(p[i - (n - |p|)])
  {
    hide Align, Val;
  }

  lemma StripCell(num: seq<Coef>, i: nat)
    requires |num| - |Strip(num)| <= i < |num|
    ensures Strip(num)[i - (|num| - |Strip(num)|)] == num[i]
  {
    hide Strip;
  }

  lemma StrippedCell(num: seq<Coef>, i: nat)
    requires i < |num| - |Strip(num)|
    ensures num[i] == Num(0)
  {
    hide Strip;
  }

  lemma ValOfZero()
    ensures Val(Num(0)) == 0 && Val(Hole) == 0
  {
  }

  /** One round adds one shifted multiple of the generator. */
  lemma RoundAddsMultiple(p: seq<Coef>, e: Generator, n: nat)
    requires |e| <= |p| <= n && Shaped(p, |e| - 1)
    ensures Align(Reduced(p, e), n) == Xor(Align(p, n), Shifted(Multiple(Ratio(p, e) % 255, n - |p|), e, n))
  {
    hide Plus, Times, Gexp, Log, Ratio, Reduced, Align, Shifted;
    var num, d := Reduced(p, e), n - |p|;
    var k := Multiple(Ratio(p, e) % 255, d);
    var a, s, b := Align(p, n), Shifted(k, e, n), Align(num, n);
    forall i | 0 <= i < n
      ensures b[i] == Plus(a[i], s[i])
    {
      PlusZero(a[i]);
      if i >= d && i - d < |e| {
        GexpIsTimes(e[i - d], Ratio(p, e));
        assert b[i] == Val(num[i - d]) == Plus(Val(p[i - d]), Times(e[i - d], k.r));
      } else if i >= d {
        assert b[i] == Val(num[i - d]) == Val(p[i - d]) == a[i];
      }
    }
  }

  lemma PlusZero(x: bv8)
    ensures Plus(x, 0) == x == Plus(0, x) && Plus(x, x) == 0
  {
  }

  lemma PlusMoves(a: bv8, s: bv8, m: bv8)
    ensures Plus(a, m) == Plus(s, Plus(Plus(a, s), m))
  {
  }

  lemma XorSeqMoves(a: seq<bv8>, s: seq<bv8>, m: seq<bv8>, t: seq<bv8>)
    requires |a| == |s| == |m| == |t| && Xor(Xor(a, s), m) == t
    ensures Xor(a, m) == Xor(s, t)
  {
    hide Xor, Plus;
    if Xor(a, m) != Xor(s, t) {
      var i := Difference(Xor(a, m), Xor(s, t));
      XorCellMoves(a, s, m, t, i);
    }
  }

  lemma XorCellMoves(a: seq<bv8>, s: seq<bv8>, m: seq<bv8>, t: seq<bv8>, i: nat)
    requires |a| == |s| == |m| == |t| && Xor(Xor(a, s), m) == t && i < |a|
    ensures Xor(a, m)[i] == Xor(s, t)[i]
  {
    hide Xor, Plus;
    PlusMoves(a[i], s[i], m[i]);
  }

  /** A polynomial and its remainder differ by a sum of shifted scalar multiples of the generator. */
  lemma {:induction false} ModIsRemainder(p: seq<Coef>, e: Generator, n: nat) returns (ks: seq<Multiple>)
    requires |p| <= n && Shaped(p, |e| - 1)
    ensures Xor(Align(p, n), Align(Mod(p, e), n)) == Sum(ks, e, n)
    ensures forall i :: 0 <= i < |ks| ==> Fits(ks[i], e, n)
    decreases |p|
  {
    hide Plus, Times, Gexp, Log, Ratio, Reduced, Strip, Align, Shifted;
    if |p| < |e| {
      ks := [];
      assert Xor(Align(p, n), Align(p, n)) == Zeros(n) by { XorSelf(Align(p, n)); }
    } else {
      var num := Reduced(p, e);
      ReducedIsShaped(p, e);
      var rest := ModIsRemainder(Strip(num), e, n);
      var k := Multiple(Ratio(p, e) % 255, n - |p|);
      StripKeepsAlign(num, n);
      RoundAddsMultiple(p, e, n);
      XorSeqMoves(Align(p, n), Shifted(k, e, n), Align(Mod(p, e), n), Sum(rest, e, n));
      ks := [k] + rest;
      assert ks[1..] == rest;
    }
  }

  lemma XorSelf(a: seq<bv8>)
    ensures Xor(a, a) == Zeros(|a|)
  {
    hide Plus;
    forall i | 0 <= i < |a|
      ensures Plus(a[i], a[i]) == 0
    {
      PlusZero(a[i]);
    }
  }

  // ---------- a block ----------

  function Nums(data: seq<bv8>): (p: seq<Coef>)
    ensures |p| == |data| && forall i :: 0 <= i < |data| ==> p[i] == Num(data[i])
  {
    seq(|data|, i requires 0 <= i < |data| => Num(data[i]))
  }

  function Holes(n: nat): (p: seq<Coef>)
    ensures |p| == n && forall i :: 0 <= i < n ==> p[i] == Hole
  {
    seq(n, _ => Hole)
  }

  /** `new QRPolynomial(data, ec)`: stripped data followed by `ec` unwritten cells. */
  function RawPoly(data: seq<bv8>, ec: nat): seq<Coef> {
    Strip(Nums(data)) + Holes(ec)
  }

  lemma RawIsShaped(data: seq<bv8>, ec: nat)
    ensures Shaped(RawPoly(data, ec), ec) && |RawPoly(data, ec)| <= |data| + ec
  {
    hide Strip;
    var s, p := Strip(Nums(data)), RawPoly(data, ec);
    var t := |data| - |s|;
    assert forall i :: 0 <= i < |s| ==> s[i] == Num(data[i + t]);
  }

  lemma RawIsShifted(data: seq<bv8>, ec: nat)
    ensures |RawPoly(data, ec)| <= |data| + ec
    ensures Align(RawPoly(data, ec), |data| + ec) == data + Zeros(ec)
  {
    hide Strip, Align, Nums, Holes, Zeros, Val;
    forall i | 0 <= i < |data| + ec
      ensures Align(RawPoly(data, ec), |data| + ec)[i] == (data + Zeros(ec))[i]
    {
      RawCell(data, ec, i);
    }
  }

  lemma RawCell(data: seq<bv8>, ec: nat, i: nat)
    requires i < |data| + ec
    ensures Align(RawPoly(data, ec), |data| + ec)[i] == (data + Zeros(ec))[i]
  {
    hide Strip, Align, Nums, Holes, Zeros;
    var s, p := Strip(Nums(data)), RawPoly(data, ec);
    var t := |data| - |s|;
    if i < t {
      assert Nums(data)[i] == Num(0);
    } else if i < |data| {
      assert p[i - t] == s[i - t] == Nums(data)[i];
    } else {
      assert p[i - t] == Hole;
    }
  }

  /** The error-correction bytes of a block; a missing or unwritten cell counts as zero. */
  ghost function EcBytes(data: seq<bv8>, e: Generator): (r: seq<bv8>)
    ensures |r| == |e| - 1
  {
    RawIsShaped(data, |e| - 1);
    Align(Mod(RawPoly(data, |e| - 1), e), |e| - 1)
  }

  /** Every block, data followed by error correction, is a multiple of the generator: a sum of shifted
      scalar multiples of it. */
  lemma BlockIsMultiple(data: seq<bv8>, e: Generator) returns (ks: seq<Multiple>)
    ensures data + EcBytes(data, e) == Sum(ks, e, |data| + |e| - 1)
    ensures forall i :: 0 <= i < |ks| ==> Fits(ks[i], e, |data| + |e| - 1)
  {
    hide Mod, RawPoly, Sum, Shaped;
    var ec := |e| - 1;
    var n, p := |data| + ec, RawPoly(data, ec);
    RawIsShaped(data, ec);
    RawIsShifted(data, ec);
    ks := ModIsRemainder(p, e, n);
    var r := Mod(p, e);
    assert Align(r, n) == Zeros(|data|) + Align(r, ec);
    JoinHalves(data, Align(r, ec));
  }

  lemma JoinHalves(a: seq<bv8>, b: seq<bv8>)
    ensures Xor(a + Zeros(|b|), Zeros(|a|) + b) == a + b
  {
    hide Plus, Xor;
    forall i | 0 <= i < |a| + |b|
      ensures Xor(a + Zeros(|b|), Zeros(|a|) + b)[i] == (a + b)[i]
    {
      PlusZero((a + b)[i]);
    }
  }

  // ---------- the loops ----------

  /** The tables as the set-up loops leave them. */
  ghost predicate Tables(exp: seq<bv8>, log: seq<nat>) {
    && |exp| == 256 == |log|
    && (forall i :: 0 <= i < 256 ==> exp[i] == Exp(i))
    && (forall n :: 1 <= n < 256 ==> log[n] < 255 && exp[log[n]] as int == n)
  }

  /** The set-up loops leave such tables. */
  method SetUpTables() returns (exp: seq<bv8>, log: seq<nat>)
    ensures Tables(exp, log)
  {
    hide Exp;
    var table;
    exp, table := FillTables();
    log := table[..];
  }

  /** `glog`: it throws for zero. */
  method Glog(exp: seq<bv8>, log: seq<nat>, x: bv8) returns (r: Option<nat>)
    requires Tables(exp, log)
    ensures x == 0 <==> r == None
    ensures x != 0 ==> r == Some(Log(x))
  {
    hide Exp, Log;
    if x as int < 1 {
      return None;
    }
    var i := log[x as int];
    SameNumber(exp[i], x);
    LogIs(x, i);
    r := Some(i);
  }

  method GexpLookup(exp: seq<bv8>, log: seq<nat>, n: int) returns (x: bv8)
    requires Tables(exp, log)
    ensures x == Gexp(n)
  {
    hide Exp;
    var k := n;
    while k < 0
      invariant Normal(k) == Normal(n) && (n < 0 ==> k < 256)
    {
      k := k + 255;
    }
    while k >= 256
      invariant 0 <= k && Normal(k) == Normal(n)
    {
      k := k - 255;
    }
    x := exp[k];
  }

  /** The constructor: skips leading zeros, copies the rest and leaves `shift` cells unwritten. */
  method NewPolynomial(num: seq<Coef>, shift: nat) returns (p: seq<Coef>)
    ensures p == Strip(num) + Holes(shift)
  {
    hide Strip, Holes;
    var offset := SkipZeros(num);
    var cells := new Coef[|num| - offset + shift](_ => Hole);
    var i := 0;
    while i < |num| - offset
      invariant 0 <= i <= |num| - offset
      invariant forall j :: 0 <= j < i ==> cells[j] == num[j + offset]
      invariant forall j :: i <= j < cells.Length ==> cells[j] == Hole
    {
      cells[i] := num[i + offset];
      i := i + 1;
    }
    p := cells[..];
    assert p[..i] == num[offset..];
    assert p[i..] == Holes(shift);
    assert p == p[..i] + p[i..];
  }

  method SkipZeros(num: seq<Coef>) returns (offset: nat)
    ensures offset <= |num| && num[offset..] == Strip(num)
  {
    offset := 0;
    while offset < |num| && num[offset] == Num(0)
      invariant 0 <= offset <= |num| && Strip(num[offset..]) == Strip(num)
    {
      assert num[offset..][1..] == num[offset + 1..];
      offset := offset + 1;
    }
  }

  /** `mod`: the whole remainder computation through the tables. It throws exactly when it makes a round
      and the divisor has a zero coefficient. */
  method ModByTables(exp: seq<bv8>, log: seq<nat>, p: seq<Coef>, e: seq<bv8>) returns (r: Option<seq<Coef>>)
    requires Tables(exp, log) && e != [] && Shaped(p, |e| - 1)
    ensures r == None <==> |p| >= |e| && !AllNonZero(e)
    ensures |p| < |e| ==> r == Some(p)
    ensures AllNonZero(e) ==> r == Some(Mod(p, e))
    decreases |p|
  {
    hide Tables, Strip, Reduced, Ratio, Shaped, AllNonZero;
    if |p| < |e| {
      return Some(p);
    }
    var num := ReduceByTables(exp, log, p, e);
    if num == None {
      return None;
    }
    ReducedIsShaped(p, e);
    var q := NewPolynomial(num.value, 0);
    assert q == Strip(num.value);
    r := ModByTables(exp, log, q, e);
  }

  lemma LeadIsNonZero(p: seq<Coef>, ec: nat)
    requires |p| > ec && Shaped(p, ec)
    ensures p[0].Num? && p[0].v != 0
  {
  }

  /** One round; `glog` throws for a zero coefficient of the divisor. */
  method ReduceByTables(exp: seq<bv8>, log: seq<nat>, p: seq<Coef>, e: seq<bv8>) returns (r: Option<seq<Coef>>)
    requires Tables(exp, log) && |p| >= |e| > 0 && Shaped(p, |e| - 1)
    ensures r == None <==> !AllNonZero(e)
    ensures AllNonZero(e) ==> r == Some(Reduced(p, e))
  {
    hide Tables, Strip, Reduced, Plus, Gexp, Log, Shaped;
    LeadIsNonZero(p, |e| - 1);
    var top := Glog(exp, log, p[0].v);
    var low := Glog(exp, log, e[0]);
    if low == None {
      return None;
    }
    var ratio := top.value as int - low.value as int;
    var num := p;
    var i := 0;
    while i < |e|
      invariant 0 <= i <= |e| && |num| == |p|
      invariant forall j :: 0 <= j < i ==> e[j] != 0 && num[j] == Num(Plus(Val(p[j]), Gexp(Log(e[j]) + ratio)))
      invariant forall j :: i <= j < |p| ==> num[j] == p[j]
    {
      var l := Glog(exp, log, e[i]);
      if l == None {
        return None;
      }
      var g := GexpLookup(exp, log, l.value + ratio);
      num := num[i := Num(Plus(Val(num[i]), g))];
      i := i + 1;
    }
    assert AllNonZero(e) && ratio == Ratio(p, e);
    assert num == Reduced(p, e);
    r := Some(num);
  }

  /** The error-correction bytes of one block, read from the low end of the remainder. With a zero
      coefficient in the generator this works for no data but zeros, which need no round. */
  method BlockEc(exp: seq<bv8>, log: seq<nat>, data: seq<bv8>, e: seq<bv8>) returns (r: Option<seq<bv8>>)
    requires Tables(exp, log) && e != []
    ensures r == None <==> !AllNonZero(e) && !AllZero(data)
    ensures AllNonZero(e) ==> r == Some(EcBytes(data, e))
    ensures !AllNonZero(e) && AllZero(data) ==> r == Some(Zeros(|e| - 1))
  {
    hide Tables, Strip, Mod, Shaped, AllNonZero, AllZero, Align;
    var n := |e| - 1;
    RawIsShaped(data, n);
    RawOfZeros(data, n);
    var p := NewPolynomial(Nums(data), n);
    var rem := ModByTables(exp, log, p, e);
    if rem == None {
      return None;
    }
    var ec := LowEnd(rem.value, n);
    if !AllNonZero(e) {
      AlignOfHoles(n);
    }
    r := Some(ec);
  }

  /** The loop that reads the last `n` coefficients; missing ones are zero. */
  method LowEnd(p: seq<Coef>, n: nat) returns (ec: seq<bv8>)
    requires |p| <= n
    ensures ec == Align(p, n)
  {
    ec := [];
    while |ec| < n
      invariant |ec| <= n && ec == Align(p, n)[..|ec|]
    {
      var at := |ec| + |p| - n;
      ec := ec + [if at >= 0 then Val(p[at]) else 0];
    }
  }

  predicate AllZero(data: seq<bv8>) {
    forall i :: 0 <= i < |data| ==> data[i] == 0
  }

  /** Only zeros leave nothing but unwritten cells. */
  lemma RawOfZeros(data: seq<bv8>, n: nat)
    ensures AllZero(data) <==> |RawPoly(data, n)| <= n
    ensures AllZero(data) ==> RawPoly(data, n) == Holes(n)
  {
    hide Strip, Nums, Holes;
    var s := Strip(Nums(data));
    if s != [] {
      assert s[0] == Nums(data)[|data| - |s|];
    } else {
      forall i | 0 <= i < |data|
        ensures data[i] == 0
      {
        assert Nums(data)[i] == Num(0);
      }
    }
  }

  lemma AlignOfHoles(n: nat)
    ensures Align(Holes(n), n) == Zeros(n)
  {
    hide Align, Holes, Zeros;
  }
}
