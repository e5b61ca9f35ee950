/**
 Machine-word helpers shared by the C sources: powers of two, the bitwise AND of
 unsigned words, and index masking on 64-bit unsigned arithmetic.
 */
module Words {

  type byte = x: int | 0 <= x < 256
  type uint32 = x: int | 0 <= x < 0x1_0000_0000

  /** `(int32_t)x` of a 32-bit word. */
  function Signed(x: uint32): int {
    if x < 0x8000_0000 then x else x - 0x1_0000_0000
  }

  const U64: nat := 0x1_0000_0000_0000_0000

  function Pow2(n: nat): (r: nat)
    ensures r >= 1
  {
    if n == 0 then 1 else 2 * Pow2(n - 1)
  }

  lemma {:induction false} Pow2Add(a: nat, b: nat)
    ensures Pow2(a) * Pow2(b) == Pow2(a + b)
  {
    if a > 0 {
      Pow2Add(a - 1, b);
      assert Pow2(a) * Pow2(b) == 2 * (Pow2(a - 1) * Pow2(b));
    }
  }

  lemma {:induction false} Pow2Monotone(a: nat, b: nat)
    requires a <= b
    ensures Pow2(a) <= Pow2(b)
    ensures a < b ==> Pow2(a) < Pow2(b)
    decreases b
  {
    if a < b {
      Pow2Monotone(a, b - 1);
    }
  }

  /** The bitwise AND of two unsigned words, bit by bit. */
  function BitAnd(x: nat, y: nat): nat
    decreases x
  {
    if x == 0 then 0
    else (if x % 2 == 1 && y % 2 == 1 then 1 else 0) + 2 * BitAnd(x / 2, y / 2)
  }

  /** The bitwise exclusive OR of two unsigned words. */
  function BitXor(x: nat, y: nat): nat
    decreases x + y
  {
    if x == 0 && y == 0 then 0
    else (if x % 2 != y % 2 then 1 else 0) + 2 * BitXor(x / 2, y / 2)
  }

  /** `x & (n - 1)` on a 64-bit unsigned `x` that may have wrapped below zero. */
  function Mask(x: int, n: nat): nat
    requires n > 0
  {
    BitAnd(x % U64, n - 1)
  }

  lemma {:induction false} BitAndLowBits(x: nat, k: nat)
    ensures BitAnd(x, Pow2(k) - 1) == x % Pow2(k)
    decreases k
  {
    if k == 0 {
      BitAndZero(x);
    } else {
      BitAndLowBits(x / 2, k - 1);
      BitAndStep(x, Pow2(k - 1));
      ModDouble(x, Pow2(k - 1));
    }
  }

  lemma BitAndStep(x: nat, p: nat)
    requires p > 0
    ensures BitAnd(x, 2 * p - 1) == x % 2 + 2 * BitAnd(x / 2, p - 1)
  {
    var y := 2 * p - 1;
    assert y % 2 == 1 && y / 2 == p - 1;
  }

  lemma {:induction false} BitAndZero(x: nat)
    ensures BitAnd(x, 0) == 0
  {
    if x > 0 {
      BitAndZero(x / 2);
    }
  }

  lemma ModDouble(x: nat, p: nat)
    requires p > 0
    ensures x % (2 * p) == x % 2 + 2 * (x / 2 % p)
  {
    var q := x / 2;
    var t := q / p;
    assert q == p * t + q % p;
    assert x == (2 * p) * t + (x % 2 + 2 * (q % p));
    ModUnique(x, 2 * p, t, x % 2 + 2 * (q % p));
  }

  lemma {:induction false} BitXorLowBits(x: nat, y: nat, k: nat)
    ensures BitXor(x, y) % Pow2(k) == BitXor(x % Pow2(k), y % Pow2(k))
    decreases k
  {
    if k > 0 {
      var p := Pow2(k - 1);
      BitXorLowBits(x / 2, y / 2, k - 1);
      ModDouble(x, p);
      ModDouble(y, p);
      BitXorStep(x, y);
      BitXorBits(x % 2, y % 2, x / 2 % p, y / 2 % p);
      ModDouble(BitXor(x, y), p);
    }
  }

  lemma BitXorStep(x: nat, y: nat)
    ensures BitXor(x, y) % 2 == (if x % 2 != y % 2 then 1 else 0) && BitXor(x, y) / 2 == BitXor(x / 2, y / 2)
  {
  }

  lemma BitXorBits(a: nat, b: nat, x: nat, y: nat)
    requires a < 2 && b < 2
    ensures BitXor(a + 2 * x, b + 2 * y) == (if a != b then 1 else 0) + 2 * BitXor(x, y)
  {
    var s, t := a + 2 * x, b + 2 * y;
    assert s % 2 == a && s / 2 == x && t % 2 == b && t / 2 == y;
  }

  lemma MulAtLeast(n: int, d: int)
    requires n >= 0 && d >= 1
    ensures n * d >= n
  {
    assert n * d - n == n * (d - 1);
  }

  lemma ModUnique(x: int, n: nat, t: int, r: int)
    requires n > 0 && 0 <= r < n && x == n * t + r
    ensures x % n == r && x / n == t
  {
    var u, w := x / n, x % n;
    assert x == n * u + w;
    assert n * t - n * u == w - r;
    assert n * (t - u) == n * t - n * u;
    if t > u {
      MulAtLeast(n, t - u);
      assert false;
    } else if t < u {
      assert n * (u - t) == -(n * (t - u));
      MulAtLeast(n, u - t);
      assert false;
    }
  }

  /** Masking by a power of two is the residue, whether or not the word wrapped. */
  lemma MaskIsMod(x: int, k: nat)
    requires k <= 64
    ensures Mask(x, Pow2(k)) == x % Pow2(k)
  {
    var n, c, w := Pow2(k), Pow2(64 - k), x % U64;
    BitAndLowBits(w, k);
    Pow2Add(k, 64 - k);
    Pow2Of64();
    ModOfMultiple(x, n, c);
  }

  lemma ModOfMultiple(x: int, n: nat, c: nat)
    requires n > 0 && c > 0 && n * c > 0
    ensures x % (n * c) % n == x % n
  {
    var q, w := x / (n * c), x % (n * c);
    var t, r := w / n, w % n;
    assert x == (n * c) * q + w && w == n * t + r;
    assert (n * c) * q == n * (c * q);
    assert n * (c * q) + n * t == n * (c * q + t);
    ModUnique(x, n, c * q + t, r);
  }

  lemma Pow2Of8()
    ensures Pow2(8) == 256
  {
  }

  lemma Pow2Of64()
    ensures Pow2(64) == U64
  {
    hide Pow2;
    Pow2Of8();
    Pow2Add(8, 8);
    Pow2Add(16, 16);
    Pow2Add(32, 32);
  }
}
