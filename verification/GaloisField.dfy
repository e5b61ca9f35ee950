/**
 The field tables of qrcode.js: powers of two modulo x^8 + x^4 + x^3 + x^2 + 1, and the proof that
 they run through every non-zero byte, so that the logarithm table is a true inverse.
 */
module GaloisField {

  /** Multiplication by x in the field. */
  function Double(x: bv8): bv8 {
    (x << 1) ^ (if x & 0x80 == 0 then 0 else 0x1d)
  }

  /** `Double` applied `n` times. */
  function Times(x: bv8, n: nat): bv8
    decreases n
  {
    if n == 0 then x else Double(Times(x, n - 1))
  }

  /** The n-th power of the generator. */
  function Exp(n: nat): bv8 {
    Times(1, n)
  }

  /** Addition in the field. */
  function Plus(x: bv8, y: bv8): bv8 {
    x ^ y
  }

  lemma DoubleIsLinear(x: bv8, y: bv8)
    ensures Double(x ^ y) == Double(x) ^ Double(y)
  {
    assert (x ^ y) << 1 == (x << 1) ^ (y << 1);
    assert (x ^ y) & 0x80 == (x & 0x80) ^ (y & 0x80);
    assert x & 0x80 == 0 || x & 0x80 == 0x80;
    assert y & 0x80 == 0 || y & 0x80 == 0x80;
  }

  lemma DoublePlus(x: bv8, y: bv8)
    ensures Double(Plus(x, y)) == Plus(Double(x), Double(y))
  {
    hide Double;
    DoubleIsLinear(x, y);
  }

  lemma DoubleIsInjective(x: bv8, y: bv8)
    requires Double(x) == Double(y)
    ensures x == y
  {
  }

  lemma {:induction false} TimesAdds(x: bv8, m: nat, n: nat)
    ensures Times(Times(x, m), n) == Times(x, m + n)
  {
    if n > 0 {
      TimesAdds(x, m, n - 1);
    }
  }

  lemma {:induction false} TimesIsInjective(x: bv8, y: bv8, n: nat)
    requires Times(x, n) == Times(y, n)
    ensures x == y
  {
    if n > 0 {
      DoubleIsInjective(Times(x, n - 1), Times(y, n - 1));
      TimesIsInjective(x, y, n - 1);
    }
  }

  function Times4(x: bv8): bv8 {
    Double(Double(Double(Double(x))))
  }

  function Times17(x: bv8): bv8 {
    Double(Times4(Times4(Times4(Times4(x)))))
  }

  function Times51(x: bv8): bv8 {
    Times17(Times17(Times17(x)))
  }

  lemma Unrolled(x: bv8)
    ensures Times(x, 4) == Times4(x) && Times(x, 17) == Times17(x) && Times(x, 51) == Times51(x)
  {
    hide Double;
    Unrolled4(x);
    Unrolled17(x);
    Unrolled17(Times17(x));
    Unrolled17(Times17(Times17(x)));
    TimesAdds(x, 17, 17);
    TimesAdds(x, 34, 17);
  }

  lemma Unrolled4(x: bv8)
    ensures Times(x, 4) == Times4(x)
  {
    hide Double;
    assert Times(x, 2) == Double(Double(x));
  }

  lemma Unrolled17(x: bv8)
    ensures Times(x, 17) == Times17(x)
  {
    hide Double;
    Unrolled4(x);
    Unrolled4(Times4(x));
    Unrolled4(Times4(Times4(x)));
    Unrolled4(Times4(Times4(Times4(x))));
    TimesAdds(x, 4, 4);
    TimesAdds(x, 8, 4);
    TimesAdds(x, 12, 4);
    assert Times(x, 17) == Double(Times(x, 16));
  }

  /** Powers whose exponents are the largest proper divisors of 255, and 255 itself. */
  lemma SomePowers()
    ensures Exp(15) == 0x26 && Exp(51) == 0x0a && Exp(85) == 0xd6 && Exp(255) == 1
  {
    Fifteen();
    Unrolled(1);
    Unrolled(0x0a);
    Unrolled(0x44);
    Unrolled(0x92);
    Unrolled(0xdd);
    Unrolled17(0x99);
    Constants();
    hide Times, Times4, Times17, Times51;
    TimesAdds(1, 51, 51);
    TimesAdds(1, 102, 51);
    TimesAdds(1, 153, 51);
    TimesAdds(1, 204, 51);
    TimesAdds(1, 51, 17);
    TimesAdds(1, 68, 17);
  }

  lemma Fifteen()
    ensures Times(1, 15) == 0x26
  {
    Unrolled4(1);
    Unrolled4(0x10);
    Unrolled4(0x1d);
    Unrolled4(0xcd);
    assert Times4(1) == 0x10 && Times4(0x10) == 0x1d && Times4(0x1d) == 0xcd && Times4(0xcd) == 0x4c;
    TimesAdds(1, 4, 4);
    TimesAdds(1, 8, 4);
    TimesAdds(1, 12, 4);
    assert Times(1, 16) == Double(Times(1, 15));
    assert Double(0x26) == 0x4c;
    DoubleIsInjective(Times(1, 15), 0x26);
  }

  lemma Constants()
    ensures Times51(1) == 0x0a && Times51(0x0a) == 0x44 && Times51(0x44) == 0x92
    ensures Times51(0x92) == 0xdd && Times51(0xdd) == 1
    ensures Times17(0x0a) == 0x99 && Times17(0x99) == 0xd6
  {
  }

  // ---------- the generator has order 255 ----------

  /** If the d-th power is one, exponents may be reduced by any multiple of d. */
  lemma {:induction false} Periodic(d: nat, k: nat, n: nat)
    requires Exp(d) == 1
    ensures Exp(k * d + n) == Exp(n)
  {
    if k > 0 {
      Periodic(d, k - 1, n);
      assert k * d + n == d + ((k - 1) * d + n);
      TimesAdds(1, d, (k - 1) * d + n);
    }
  }

  /** The least exponent found by Euclid's steps divides 255. */
  lemma {:induction false} OrderDivides(d: nat) returns (g: nat, k: nat)
    requires 1 <= d <= 254 && Exp(d) == 1
    ensures 1 <= g <= d && k >= 2 && g * k == 255 && Exp(g) == 1
  {
    var q, r := 255 / d, 255 % d;
    assert 255 == q * d + r;
    if r == 0 {
      g, k := d, q;
    } else {
      Periodic(d, q, r);
      SomePowers();
      g, k := OrderDivides(r);
    }
  }

  lemma Divisors(g: nat, k: nat)
    requires g * k == 255 && g >= 1 && k >= 2
    ensures g in {1, 3, 5, 15, 17, 51, 85}
  {
    if g >= 16 {
      LargeFactors(g, k);
      SmallFactor(k, g);
    } else {
      SmallFactor(g, k);
    }
  }

  lemma LargeFactors(g: nat, k: nat)
    requires g * k == 255 && g >= 16
    ensures k <= 15
  {
    assert g * k == 16 * k + (g - 16) * k;
  }

  lemma SmallFactor(a: nat, b: nat)
    requires a * b == 255 && a <= 15
    ensures (a == 1 && b == 255) || (a == 3 && b == 85) || (a == 5 && b == 51) || (a == 15 && b == 17)
  {
    assert a in {0, 1, 2, 3, 4, 5, 6, 7, 8, 9, 10, 11, 12, 13, 14, 15};
  }

  /** No smaller power of the generator than the 255th is one. */
  lemma NoSmallerOrder(d: nat)
    requires 1 <= d <= 254
    ensures Exp(d) != 1
  {
    if Exp(d) == 1 {
      SomePowers();
      var g, k := OrderDivides(d);
      Divisors(g, k);
      MultipleIsOne(g, if g <= 15 then 15 else if g == 85 then 85 else 51);
      assert false;
    }
  }

  lemma MultipleIsOne(g: nat, n: nat)
    requires g > 0 && Exp(g) == 1 && n % g == 0
    ensures Exp(n) == 1
  {
    Periodic(g, n / g, 0);
    assert n / g * g + 0 == n;
  }

  /** Powers below 255 are pairwise different. */
  lemma ExpIsInjective(i: nat, j: nat)
    requires i < j < 255
    ensures Exp(i) != Exp(j)
  {
    NoSmallerOrder(j - i);
    TimesAdds(1, j - i, i);
    if Exp(i) == Exp(j) {
      TimesIsInjective(1, Exp(j - i), i);
    }
  }

  lemma {:induction false} ExpIsNonZero(n: nat)
    ensures Exp(n) != 0
  {
    if n > 0 {
      ExpIsNonZero(n - 1);
      assert Double(0) == 0;
      if Exp(n) == 0 {
        DoubleIsInjective(Exp(n - 1), 0);
      }
    }
  }

  /** The n-th power read as a number. */
  ghost function ExpNum(n: nat): (r: int)
    ensures 0 <= r < 256
  {
    Exp(n) as int
  }

  lemma ExpNumIsInjective(i: nat, j: nat)
    requires i < j < 255
    ensures ExpNum(i) != ExpNum(j)
  {
    ExpIsInjective(i, j);
  }

  /** The numbers the first `n` powers stand for. */
  ghost function Powers(n: nat): set<int> {
    set i | 0 <= i < n :: ExpNum(i)
  }

  lemma {:induction false} PowersAreMany(n: nat)
    requires n <= 255
    ensures |Powers(n)| == n
  {
    hide ExpNum;
    if n > 0 {
      PowersAreMany(n - 1);
      forall i | 0 <= i < n - 1
        ensures ExpNum(i) != ExpNum(n - 1)
      {
        ExpNumIsInjective(i, n - 1);
      }
      assert Powers(n) == Powers(n - 1) + {ExpNum(n - 1)};
    } else {
      assert Powers(0) == {};
    }
  }

  /** The numbers from one to `n`. */
  ghost function UpTo(n: nat): (r: set<int>)
    ensures |r| == n && forall x :: x in r <==> 1 <= x <= n
  {
    if n == 0 then {} else UpTo(n - 1) + {n}
  }

  lemma SubsetOfSameSize(a: set<int>, b: set<int>)
    requires a <= b && |a| == |b|
    ensures a == b
  {
    assert b == a + (b - a);
    assert |b - a| == 0;
  }

  /** Every non-zero byte is a power of the generator below 255. */
  lemma ExpIsSurjective(n: int)
    requires 1 <= n <= 255
    ensures exists i :: 0 <= i < 255 && ExpNum(i) == n
  {
    hide ExpNum, Powers;
    PowersAreMany(255);
    forall n | n in Powers(255)
      ensures n in UpTo(255)
    {
      PowersAreInRange(n);
    }
    SubsetOfSameSize(Powers(255), UpTo(255));
    PowersHold(n);
  }

  lemma PowersAreInRange(n: int)
    requires n in Powers(255)
    ensures 1 <= n <= 255
  {
    hide Exp;
    var i :| 0 <= i < 255 && ExpNum(i) == n;
    ExpIsNonZero(i);
  }

  lemma PowersHold(n: int)
    requires n in Powers(255)
    ensures exists i :: 0 <= i < 255 && ExpNum(i) == n
  {
  }

  // ---------- multiplication ----------

  lemma {:induction false} TimesPlus(x: bv8, y: bv8, n: nat)
    ensures Times(Plus(x, y), n) == Plus(Times(x, n), Times(y, n))
  {
    hide Double, Plus;
    if n > 0 {
      TimesPlus(x, y, n - 1);
      DoublePlus(Times(x, n - 1), Times(y, n - 1));
    }
  }

  lemma ExpReduces(n: nat)
    ensures Exp(n) == Exp(n % 255)
  {
    SomePowers();
    Periodic(255, n / 255, n % 255);
    assert n / 255 * 255 + n % 255 == n;
  }

  // ---------- the tables ----------

  /** The recurrence the source fills its table with. */
  lemma Recurrence(i: nat)
    requires i >= 8
    ensures Exp(i) == Exp(i - 4) ^ Exp(i - 5) ^ Exp(i - 6) ^ Exp(i - 8)
  {
    hide Exp;
    RecurrenceStep(i);
  }

  lemma {:induction false} RecurrenceStep(i: nat)
    requires i >= 8
    ensures Exp(i) == Plus(Plus(Plus(Exp(i - 4), Exp(i - 5)), Exp(i - 6)), Exp(i - 8))
  {
    hide Exp, Double, Plus;
    if i == 8 {
      FirstRecurrence();
    } else {
      RecurrenceStep(i - 1);
      ExpStep(i);
      ExpStep(i - 4);
      ExpStep(i - 5);
      ExpStep(i - 6);
      ExpStep(i - 8);
      var a, b, c, d := Exp(i - 5), Exp(i - 6), Exp(i - 7), Exp(i - 9);
      DoublePlus(Plus(Plus(a, b), c), d);
      DoublePlus(Plus(a, b), c);
      DoublePlus(a, b);
    }
  }

  lemma FirstRecurrence()
    ensures Exp(8) == Plus(Plus(Plus(Exp(4), Exp(3)), Exp(2)), Exp(0))
  {
    hide Exp;
    FirstPowers();
  }

  lemma ExpStep(n: nat)
    requires n > 0
    ensures Exp(n) == Double(Exp(n - 1))
  {
    hide Double;
  }

  lemma FirstPowers()
    ensures Exp(0) == 1 && Exp(1) == 2 && Exp(2) == 4 && Exp(3) == 8 && Exp(4) == 16
    ensures Exp(5) == 32 && Exp(6) == 64 && Exp(7) == 128 && Exp(8) == 29
  {
    assert Exp(1) == 2 && Exp(2) == 4;
    assert Exp(3) == 8 && Exp(4) == 16;
    assert Exp(5) == 32 && Exp(6) == 64;
    assert Exp(7) == 128 && Exp(8) == 29;
  }

  /** The set-up loops: afterwards `exp` holds the powers, and `log` is their exact inverse. */
  method FillTables() returns (exp: seq<bv8>, log: array<nat>)
    ensures |exp| == 256 && log.Length == 256
    ensures forall i :: 0 <= i < 256 ==> exp[i] == Exp(i)
    ensures forall n :: 1 <= n < 256 ==> log[n] < 255 && exp[log[n]] as int == n
  {
    exp := FillExp();
    log := new nat[256];
    FillLog(exp, log);
  }

  method FillExp() returns (exp: seq<bv8>)
    ensures |exp| == 256 && forall i :: 0 <= i < 256 ==> exp[i] == Exp(i)
  {
    hide Exp;
    exp := [];
    while |exp| < 8
      invariant |exp| <= 8 && forall j :: 0 <= j < |exp| ==> exp[j] == Exp(j)
    {
      ShiftIsExp(|exp|);
      exp := exp + [1 << |exp|];
    }
    while |exp| < 256
      invariant 8 <= |exp| <= 256 && forall j :: 0 <= j < |exp| ==> exp[j] == Exp(j)
    {
      var i := |exp|;
      Recurrence(i);
      exp := exp + [exp[i - 4] ^ exp[i - 5] ^ exp[i - 6] ^ exp[i - 8]];
    }
  }

  lemma ShiftIsExp(i: nat)
    requires i < 8
    ensures (1 as bv8) << i == Exp(i)
  {
    FirstPowers();
  }

  lemma ExpNumIsSurjective(n: int) returns (i: nat)
    requires 1 <= n <= 255
    ensures i < 255 && ExpNum(i) == n
  {
    hide ExpNum;
    ExpIsSurjective(n);
    i :| 0 <= i < 255 && ExpNum(i) == n;
  }

  method FillLog(exp: seq<bv8>, log: array<nat>)
    requires |exp| == 256 == log.Length && forall i :: 0 <= i < 256 ==> exp[i] as int == ExpNum(i)
    modifies log
    ensures forall n :: 1 <= n < 256 ==> log[n] < 255 && ExpNum(log[n]) == n
  {
    hide ExpNum;
    var i := 0;
    while i < 255
      invariant 0 <= i <= 255
      invariant forall j :: 0 <= j < i ==> log[ExpNum(j)] == j
    {
      var n := exp[i] as int;
      log[n] := i;
      forall j | 0 <= j < i
        ensures ExpNum(j) != n
      {
        ExpNumIsInjective(j, i);
      }
      i := i + 1;
    }
    forall n | 1 <= n < 256
      ensures log[n] < 255 && ExpNum(log[n]) == n
    {
      var j := ExpNumIsSurjective(n);
      assert log[ExpNum(j)] == j;
    }
  }
}
