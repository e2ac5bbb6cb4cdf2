/**
 Unsigned machine integers as natural numbers: powers of two, the bitwise "and"
 of C, and the two mask identities the ring-buffer code and the bit scans rest on.
 */
module MachineInt {
  const TWO32: nat := 0x1_0000_0000
  const TWO63: nat := 0x8000_0000_0000_0000
  const TWO64: nat := 0x1_0000_0000_0000_0000

  /** An unsigned 64-bit value. */
  type u64 = x: nat | x < 0x1_0000_0000_0000_0000 witness 0

  lemma MulAssociates(a: int, b: int, c: int)
    ensures (a * b) * c == a * (b * c)
  {
  }

  lemma MulDistributes(a: int, b: int, c: int)
    ensures a * (b + c) == a * b + a * c
    ensures a * (b - c) == a * b - a * c
  {
  }

  lemma MulMonotone(a: nat, b: nat, c: nat)
    requires b <= c
    ensures 0 <= a * b <= a * c
  {
    MulDistributes(a, c, b);
    assert a * (c - b) >= 0;
  }

  function Pow2(n: nat): (p: nat)
    ensures p >= 1
  {
    if n == 0 then 1 else 2 * Pow2(n - 1)
  }

  lemma {:induction false} Pow2Add(a: nat, b: nat)
    ensures Pow2(a + b) == Pow2(a) * Pow2(b)
  {
    if a == 0 {
    } else {
      Pow2Add(a - 1, b);
      MulAssociates(2, Pow2(a - 1), Pow2(b));
    }
  }

  lemma Pow2Sum(a: nat, b: nat, c: nat)
    requires c == a + b
    ensures Pow2(c) == Pow2(a) * Pow2(b)
  {
    Pow2Add(a, b);
  }

  lemma {:induction false} Pow2Monotone(a: nat, b: nat)
    requires a <= b
    ensures Pow2(a) <= Pow2(b)
    ensures a < b ==> 2 * Pow2(a) <= Pow2(b)
    decreases b
  {
    if a == b {
    } else {
      Pow2Monotone(a, b - 1);
    }
  }

  lemma Pow2Double(a: nat)
    ensures Pow2(2 * a) == Pow2(a) * Pow2(a)
  {
    hide Pow2;
    Pow2Add(a, a);
    assert 2 * a == a + a;
  }

  lemma Pow2Values()
    ensures Pow2(8) == 0x100 && Pow2(16) == 0x1_0000
    ensures Pow2(32) == TWO32 && Pow2(63) == TWO63 && Pow2(64) == TWO64
  {
    assert Pow2(4) == 16;
    Pow2Double(4);
    Pow2Double(8);
    Pow2Double(16);
    Pow2Double(32);
    assert Pow2(64) == 2 * Pow2(63);
  }

  lemma MulAtLeast(d: nat, k: int)
    ensures k >= 1 ==> d * k >= d
    ensures k <= -1 ==> d * k <= 0 - d
  {
  }

  /** The decomposition of `x` by `d` with remainder `r` is unique. */
  lemma ModUnique(x: int, d: nat, q: int, r: int)
    requires d > 0 && 0 <= r < d && x == d * q + r
    ensures x / d == q && x % d == r
  {
    var k := q - x / d;
    assert d * k == x % d - r;
    MulAtLeast(d, k);
  }

  /** Splitting off the lowest bit commutes with the remainder by a power of two. */
  lemma HalfMod(a: nat, p: nat)
    requires p > 0
    ensures a % (2 * p) == 2 * ((a / 2) % p) + a % 2
  {
    var h := a / 2;
    var q, r := h / p, h % p;
    assert h == p * q + r;
    assert (2 * p) * q == 2 * (p * q);
    ModUnique(a, 2 * p, q, 2 * r + a % 2);
  }

  /** `a & b` on unsigned integers of any width. */
  function BitAnd(a: nat, b: nat): nat {
    if a == 0 || b == 0 then 0
    else (if a % 2 == 1 && b % 2 == 1 then 1 else 0) + 2 * BitAnd(a / 2, b / 2)
  }

  /** The `k` low bits of `a`. */
  function LowBits(a: nat, k: nat): nat
    decreases k
  {
    if k == 0 then 0 else a % 2 + 2 * LowBits(a / 2, k - 1)
  }

  lemma {:induction false} LowBitsIsModulo(a: nat, k: nat)
    ensures LowBits(a, k) == a % Pow2(k)
    decreases k
  {
    if k == 0 {
    } else {
      LowBitsIsModulo(a / 2, k - 1);
      HalfMod(a, Pow2(k - 1));
    }
  }

  /** The lowest mask bit decides the lowest bit of the result. */
  lemma AndUnfold(a: nat, m: nat)
    ensures BitAnd(a, 2 * m + 1) == a % 2 + 2 * BitAnd(a / 2, m)
    ensures BitAnd(a, 2 * m) == 2 * BitAnd(a / 2, m)
  {
    assert (2 * m + 1) / 2 == m && (2 * m + 1) % 2 == 1;
    assert (2 * m) / 2 == m && (2 * m) % 2 == 0;
  }

  lemma AndZero(a: nat)
    ensures BitAnd(a, 0) == 0
  {
  }

  lemma {:induction false} AndLowBits(a: nat, k: nat)
    ensures BitAnd(a, Pow2(k) - 1) == LowBits(a, k)
    decreases k
  {
    hide BitAnd;
    if k == 0 {
      AndZero(a);
    } else {
      AndUnfold(a, Pow2(k - 1) - 1);
      AndLowBits(a / 2, k - 1);
    }
  }

  lemma {:induction false} AndHighBits(a: nat, k: nat, w: nat)
    requires k <= w && a < Pow2(w)
    ensures Pow2(k) <= Pow2(w)
    ensures BitAnd(a, Pow2(w) - Pow2(k)) == a - LowBits(a, k)
    decreases w
  {
    hide BitAnd;
    if w == 0 {
      AndZero(a);
    } else {
      if k > 0 {
        AndHighBits(a / 2, k - 1, w - 1);
        AndUnfold(a, Pow2(w - 1) - Pow2(k - 1));
      } else {
        AndHighBits(a / 2, 0, w - 1);
        AndUnfold(a, Pow2(w - 1) - 1);
      }
    }
  }

  /** Masking with 2^k - 1 takes the remainder by 2^k. */
  lemma AndLowMask(a: nat, k: nat)
    ensures BitAnd(a, Pow2(k) - 1) == a % Pow2(k)
  {
    AndLowBits(a, k);
    LowBitsIsModulo(a, k);
  }

  /** Masking a w-bit value with ~(2^k - 1) rounds it down to a multiple of 2^k. */
  lemma AndHighMask(a: nat, k: nat, w: nat)
    requires k <= w && a < Pow2(w)
    ensures Pow2(k) <= Pow2(w)
    ensures BitAnd(a, Pow2(w) - Pow2(k)) == a - a % Pow2(k)
  {
    AndHighBits(a, k, w);
    LowBitsIsModulo(a, k);
  }

  // ---------------------------------------------------------------------
  // Numbers that wrap
  // ---------------------------------------------------------------------

  /** `(int64_t) (prev - last) < 0` on unsigned 64-bit values. */
  predicate Behind(prev: nat, last: nat) {
    Sub64(prev, last) >= TWO63
  }

  /** Subtraction on unsigned 64-bit values. */
  function Sub64(a: int, b: int): (r: nat)
    ensures r < TWO64
  {
    (a - b) % TWO64
  }

  lemma Sub64Zero(a: nat, b: nat)
    requires a < TWO64 && b < TWO64
    ensures Sub64(a, b) == 0 <==> a == b
  {
  }

  /** How a number is stored in 64 bits; -1 becomes the sentinel. */
  function Stored(x: int): (r: nat)
    ensures r < TWO64
  {
    x % TWO64
  }

  /** As long as two numbers are less than 2^64 apart, the signed difference
      orders them correctly exactly when they are within 2^63 of each other. */
  lemma BehindExactly(prev: int, last: int)
    requires last - TWO64 <= prev < last + TWO64
    ensures (Behind(Stored(prev), Stored(last)) <==> prev < last) <==> last - TWO63 <= prev < last + TWO63
  {
    StoredDifference(prev, last);
  }

  lemma StoredDifference(prev: int, last: int)
    ensures (Stored(prev) - Stored(last)) % TWO64 == (prev - last) % TWO64
  {
    var p, l := prev / TWO64, last / TWO64;
    assert prev - last == Stored(prev) - Stored(last) + TWO64 * (p - l);
    ModShift(Stored(prev) - Stored(last), p - l);
  }

  lemma ModShift(x: int, k: int)
    ensures (x + TWO64 * k) % TWO64 == x % TWO64
  {
  }

  /** The remainder, as a function that proofs can treat as a whole. */
  function Mod(x: int, d: nat): (r: nat)
    requires d > 0
    ensures r < d
  {
    x % d
  }

  /** A remainder by a multiple of `d` leaves the remainder by `d`. */
  lemma ModMod(x: int, d: nat, k: nat)
    requires d > 0 && k > 0
    ensures d * k > 0 && (x % (d * k)) % d == x % d
  {
    MulAtLeast(d, k);
    var q, r := x / (d * k), x % (d * k);
    assert x == (d * k) * q + r;
    MulAssociates(d, k, q);
    ModUnique(x, d, k * q + r / d, r % d) by {
      MulDistributes(d, k * q, r / d);
    }
  }

  /** The remainder by `d * k` of a number written as `d * a + t`. */
  lemma ModScaled(a: int, t: nat, d: nat, k: nat)
    requires d > 0 && k > 0 && t < d
    ensures d * k > 0 && (d * a + t) % (d * k) == d * (a % k) + t
  {
    MulAtLeast(d, k);
    var q, r := a / k, a % k;
    assert a == k * q + r;
    MulDistributes(d, k * q, r);
    MulAssociates(d, k, q);
    MulDistributes(d, k, r);
    MulAtLeast(d, k - r);
    MulAtLeast(d, r);
    ModUnique(d * a + t, d * k, q, d * r + t);
  }

  /** Adding `b` leaves the remainder exactly when `b` is a multiple. */
  lemma ModSame(a: int, b: int, d: nat)
    requires d > 0
    ensures (a + b) % d == a % d <==> b % d == 0
  {
    var q, r := a / d, a % d;
    var q', r' := b / d, b % d;
    MulDistributes(d, q, q');
    if r + r' < d {
      ModUnique(a + b, d, q + q', r + r');
    } else {
      MulDistributes(d, q + q', 1);
      ModUnique(a + b, d, q + q' + 1, r + r' - d);
    }
  }
}
