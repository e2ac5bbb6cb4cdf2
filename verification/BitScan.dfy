/**
 The portable bit scans of `src/common/utils.c` and the rounding of
 `src/common/dynamic-buffer.c`.
 */
module BitScan {
  import opened Wrappers
  import opened MachineInt

  /** `r` is the position of the most significant bit of `x`, counted from 1. */
  predicate HighestBit(x: nat, r: nat) {
    if x == 0 then r == 0 else r > 0 && Pow2(r - 1) <= x < Pow2(r)
  }

  /** The position is unique. */
  lemma HighestBitUnique(x: nat, r: nat, r': nat)
    requires HighestBit(x, r) && HighestBit(x, r')
    ensures r == r'
  {
    if x > 0 {
      if r < r' {
        Pow2Monotone(r, r' - 1);
      } else if r' < r {
        Pow2Monotone(r', r - 1);
      }
    }
  }

  /** `mask` selects the `j` high bits of a `w`-bit word. */
  predicate HighMask(mask: nat, j: nat, w: nat) {
    j <= w && mask + Pow2(w - j) == Pow2(w)
  }

  lemma Masks64()
    ensures HighMask(0xFFFF_FFFF_0000_0000, 32, 64) && HighMask(0xFFFF_0000_0000_0000, 16, 64)
    ensures HighMask(0xFF00_0000_0000_0000, 8, 64) && HighMask(0xF000_0000_0000_0000, 4, 64)
    ensures HighMask(0xC000_0000_0000_0000, 2, 64) && HighMask(0x8000_0000_0000_0000, 1, 64)
  {
    Pow2Values();
    Pow2Add(32, 16);
    Pow2Add(48, 8);
    Pow2Add(56, 4);
    assert Pow2(4) == 16;
    assert Pow2(63) == 2 * Pow2(62);
  }

  lemma Masks32()
    ensures HighMask(0xFFFF_0000, 16, 32) && HighMask(0xFF00_0000, 8, 32) && HighMask(0xF000_0000, 4, 32)
    ensures HighMask(0xC000_0000, 2, 32) && HighMask(0x8000_0000, 1, 32)
  {
    Pow2Values();
    Pow2Add(16, 8);
    Pow2Add(24, 4);
    assert Pow2(4) == 16;
    assert Pow2(31) == 2 * Pow2(30) && Pow2(32) == 2 * Pow2(31);
  }

  /** `x` is `v` shifted up by `w - r` places, and one of its bits from place `k` on is set. */
  ghost predicate Shifted(x: nat, v: nat, r: nat, k: nat, w: nat) {
    0 < r <= w && x == v * Pow2(w - r) && Pow2(k) <= x < Pow2(w)
  }

  lemma NotShifted(v: nat, w: nat)
    requires (w == 32 && 0 < v < TWO32) || (w == 64 && 0 < v < TWO64)
    ensures Shifted(v, v, w, 0, w)
  {
    Pow2Values();
  }

  /** One step of the cascade: when the `j` high bits are clear, shift them out. */
  method ShiftOut(x: nat, r: nat, mask: nat, j: nat, w: nat, ghost v: nat) returns (x': nat, r': nat)
    requires 0 < 2 * j <= w && HighMask(mask, j, w) && Shifted(x, v, r, w - 2 * j, w)
    ensures Shifted(x', v, r', w - j, w)
  {
    x', r' := x, r;
    HighBitsClear(x, j, w);
    if BitAnd(x, mask) == 0 {
      x' := (x * Pow2(j)) % Pow2(w);
      ShiftFits(x, r, j, w, v);
      r' := r - j;
    }
  }

  /** Three steps, each half as wide as the one before. */
  method ShiftOutThree(x: nat, r: nat, mask1: nat, mask2: nat, mask3: nat, j: nat, w: nat, ghost v: nat)
    returns (x': nat, r': nat)
    requires 0 < 8 * j <= w && HighMask(mask1, 4 * j, w) && HighMask(mask2, 2 * j, w) && HighMask(mask3, j, w)
    requires Shifted(x, v, r, w - 8 * j, w)
    ensures Shifted(x', v, r', w - j, w)
  {
    hide Shifted, HighMask, Pow2;
    x', r' := ShiftOut(x, r, mask1, 4 * j, w, v);
    x', r' := ShiftOut(x', r', mask2, 2 * j, w, v);
    x', r' := ShiftOut(x', r', mask3, j, w, v);
  }

  lemma HighBitsClear(x: nat, j: nat, w: nat)
    requires j <= w && x < Pow2(w)
    ensures Pow2(w - j) <= Pow2(w) && (BitAnd(x, Pow2(w) - Pow2(w - j)) == 0 <==> x < Pow2(w - j))
  {
    AndHighMask(x, w - j, w);
    hide Pow2, BitAnd;
    var d := Pow2(w - j);
    if x < d { ModUnique(x, d, 0, x); }
  }

  lemma ShiftFits(x: nat, r: nat, j: nat, w: nat, v: nat)
    requires 0 < 2 * j <= w && Pow2(w - 2 * j) <= x < Pow2(w - j) && 0 < r <= w && x == v * Pow2(w - r)
    ensures j < r && (x * Pow2(j)) % Pow2(w) == x * Pow2(j) == v * Pow2(w - (r - j))
    ensures Pow2(w - j) <= x * Pow2(j) < Pow2(w)
  {
    hide Pow2;
    Pow2Add(w - 2 * j, j);
    Pow2Add(w - j, j);
    assert w - 2 * j + j == w - j && w - j + j == w;
    ScaledBounds(x, Pow2(j), Pow2(w - 2 * j), Pow2(w - j), Pow2(w));
    RoomLeft(x, r, j, w, v);
    Pow2Add(w - r, j);
    assert w - r + j == w - (r - j);
    MulAssociates(v, Pow2(w - r), Pow2(j));
  }

  lemma ScaledBounds(x: nat, J: nat, lo: nat, hi: nat, W: nat)
    requires lo <= x < hi && J > 0 && lo * J == hi && hi * J == W
    ensures hi <= x * J < W && (x * J) % W == x * J
  {
    MulStrict(J, x, hi);
    MulMonotone(J, lo, x);
    ModUnique(x * J, W, 0, x * J);
  }

  lemma RoomLeft(x: nat, r: nat, j: nat, w: nat, v: nat)
    requires j <= w && 0 < x < Pow2(w - j) && r <= w && x == v * Pow2(w - r)
    ensures j < r
  {
    hide Pow2;
    MulAtLeast(Pow2(w - r), v);
    if r <= j {
      Pow2Monotone(w - j, w - r);
    }
  }

  lemma MulStrict(a: nat, b: nat, c: nat)
    requires a > 0 && b < c
    ensures b * a < c * a
  {
    MulDistributes(a, c, b);
    MulAtLeast(a, c - b);
  }

  method Fls64(value: nat) returns (r: nat)
    requires value < TWO64
    ensures HighestBit(value, r)
  {
    if value == 0 {
      return 0;
    }
    hide Shifted, HighMask, HighestBit, Pow2;
    Masks64();
    NotShifted(value, 64);
    var x := value;
    r := 64;
    x, r := ShiftOutThree(x, r, 0xFFFF_FFFF_0000_0000, 0xFFFF_0000_0000_0000, 0xFF00_0000_0000_0000, 8, 64, value);
    x, r := ShiftOutThree(x, r, 0xF000_0000_0000_0000, 0xC000_0000_0000_0000, 0x8000_0000_0000_0000, 1, 64, value);
    Normalized(x, value, r, 64);
  }

  method Fls32(value: nat) returns (r: nat)
    requires value < TWO32
    ensures HighestBit(value, r)
  {
    if value == 0 {
      return 0;
    }
    hide Shifted, HighMask, HighestBit, Pow2;
    Masks32();
    NotShifted(value, 32);
    var x := value;
    r := 32;
    x, r := ShiftOutThree(x, r, 0xFFFF_0000, 0xFF00_0000, 0xF000_0000, 4, 32, value);
    x, r := ShiftOut(x, r, 0xC000_0000, 2, 32, value);
    x, r := ShiftOut(x, r, 0x8000_0000, 1, 32, value);
    Normalized(x, value, r, 32);
  }

  /** A value shifted up to the top bit tells where its top bit was. */
  lemma Normalized(x: nat, v: nat, r: nat, w: nat)
    requires w > 0 && Shifted(x, v, r, w - 1, w)
    ensures HighestBit(v, r)
  {
    hide Pow2;
    Pow2Add(r, w - r);
    Pow2Add(r - 1, w - r);
    assert r + (w - r) == w && r - 1 + (w - r) == w - 1;
    var d := Pow2(w - r);
    if v >= Pow2(r) {
      MulMonotone(d, Pow2(r), v);
      assert false;
    }
    if v < Pow2(r - 1) {
      MulStrict(d, v, Pow2(r - 1));
      assert false;
    }
  }

  /** `order` is the least with `x <= 2^order`; there is none for 0. */
  predicate LeastOrder(x: nat, order: int) {
    if x == 0 then order == -1
    else order >= 0 && x <= Pow2(order) && (order > 0 ==> Pow2(order - 1) < x)
  }

  method CountOrder64(x: nat) returns (order: int)
    requires x < TWO64
    ensures LeastOrder(x, order)
  {
    if x == 0 {
      return -1;
    }
    order := Fls64(x - 1);
  }

  method CountOrder32(x: nat) returns (order: int)
    requires x < TWO32
    ensures LeastOrder(x, order)
  {
    if x == 0 {
      return -1;
    }
    order := Fls32(x - 1);
  }

  ghost predicate IsPowerOf2(x: nat) {
    exists k: nat :: x == Pow2(k)
  }

  /** `r` is the smallest power of two that is at least `x`. */
  ghost predicate Rounds(x: nat, r: nat) {
    IsPowerOf2(r) && r >= x && forall k: nat :: Pow2(k) >= x ==> Pow2(k) >= r
  }

  lemma LeastOrderRounds(x: nat, order: nat)
    requires x > 0 && LeastOrder(x, order)
    ensures Rounds(x, Pow2(order))
  {
    hide Pow2;
    forall k: nat | Pow2(k) >= x
      ensures Pow2(k) >= Pow2(order)
    {
      if k < order {
        Pow2Monotone(k, order - 1);
        assert false;
      }
      Pow2Monotone(order, k);
    }
  }

  lemma PowerRoundsToItself(x: nat, r: nat)
    requires IsPowerOf2(x) && Rounds(x, r)
    ensures r == x
  {
    var k: nat :| x == Pow2(k);
    assert Pow2(k) >= x;
  }

  /** No result for 0, on which the assertion fails, and above 2^63, where the shift is
      by the width of the type. */
  method RoundToPowerOf2(val: nat) returns (rounded: Option<nat>)
    requires val < TWO64
    ensures rounded.Some? <==> 1 <= val <= TWO63
    ensures rounded.Some? ==> Rounds(val, rounded.value)
  {
    var order := CountOrder64(val);
    if order < 0 {
      return None;
    }
    OrderInRange(val, order);
    if order >= 64 {
      return None;
    }
    LeastOrderRounds(val, order);
    return Some(Pow2(order));
  }

  lemma OrderInRange(x: nat, order: nat)
    requires x > 0 && LeastOrder(x, order)
    ensures order < 64 <==> x <= TWO63
  {
    Pow2Values();
    hide Pow2;
    if order < 64 {
      Pow2Monotone(order, 63);
    } else {
      Pow2Monotone(63, order - 1);
    }
  }
}
