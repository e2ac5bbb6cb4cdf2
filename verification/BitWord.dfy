/**
 Machine words of an arbitrary width, as sequences of bits with the least
 significant bit first, and the C operators `src/common/bitfield.h` applies to
 them.  A shift by the full width or more is undefined in C, so the two
 operators demand a smaller amount; every caller proves it respects that.
 */
module BitWord {
  import opened MachineInt

  type Word = seq<bool>

  function Zeros(n: nat): Word { seq(n, _ => false) }

  function Ones(n: nat): Word { seq(n, _ => true) }

  function Not(a: Word): Word {
    seq(|a|, i requires 0 <= i < |a| => !a[i])
  }

  function And(a: Word, b: Word): Word
    requires |a| == |b|
  {
    seq(|a|, i requires 0 <= i < |a| => a[i] && b[i])
  }

  function Or(a: Word, b: Word): Word
    requires |a| == |b|
  {
    seq(|a|, i requires 0 <= i < |a| => a[i] || b[i])
  }

  function Shl(a: Word, s: nat): Word
    requires s < |a|
  {
    seq(|a|, i requires 0 <= i < |a| => i >= s && a[i - s])
  }

  /** Right shift: logical for an unsigned word, arithmetic for a signed one. */
  function Shr(a: Word, signed: bool, s: nat): Word
    requires s < |a|
  {
    seq(|a|, i requires 0 <= i < |a| => ExtBit(a, signed, i + s))
  }

  /** Bit `i` of the infinite two's-complement expansion of `a`. */
  function ExtBit(a: Word, signed: bool, i: nat): bool
    requires |a| > 0
  {
    if i < |a| then a[i] else signed && a[|a| - 1]
  }

  /** The C conversion of `a` to a type of `width` bits. */
  function Cast(a: Word, signed: bool, width: nat): Word
    requires |a| > 0
  {
    seq(width, i requires 0 <= i < width => ExtBit(a, signed, i))
  }

  /** Right shift by any amount, the meaning of a piecewise right shift. */
  function ShrAny(a: Word, signed: bool, s: nat): (r: Word)
    requires |a| > 0
    ensures |r| == |a|
  {
    seq(|a|, i requires 0 <= i < |a| => ExtBit(a, signed, i + s))
  }

  /** Left shift by any amount, the meaning of a piecewise left shift. */
  function ShlAny(a: Word, s: nat): (r: Word)
    ensures |r| == |a|
  {
    seq(|a|, i requires 0 <= i < |a| => i >= s && a[i - s])
  }

  lemma ShrAnyZero(a: Word, signed: bool)
    requires |a| > 0
    ensures ShrAny(a, signed, 0) == a
  {
    var r := ShrAny(a, signed, 0);
    forall i | 0 <= i < |a|
      ensures r[i] == a[i]
    {
      assert r[i] == ExtBit(a, signed, i + 0);
    }
  }

  lemma ShlAnyZero(a: Word)
    ensures ShlAny(a, 0) == a
  {
    var r := ShlAny(a, 0);
    assert forall i | 0 <= i < |a| :: r[i] == a[i];
  }

  /** One more defined shift on top of a shift by `s`. */
  lemma ShrAnyCompose(a: Word, signed: bool, s: nat, t: nat)
    requires |a| > 0
    ensures ShrAny(ShrAny(a, signed, s), signed, t) == ShrAny(a, signed, s + t)
    ensures t < |a| ==> Shr(ShrAny(a, signed, s), signed, t) == ShrAny(a, signed, s + t)
  {
    var b, c, d := ShrAny(a, signed, s), ShrAny(ShrAny(a, signed, s), signed, t), ShrAny(a, signed, s + t);
    forall i | 0 <= i < |a|
      ensures c[i] == d[i]
    {
      assert b[|a| - 1] == ExtBit(a, signed, |a| - 1 + s);
      assert c[i] == ExtBit(b, signed, i + t);
      assert d[i] == ExtBit(a, signed, i + (s + t));
      if i + t < |a| { assert b[i + t] == ExtBit(a, signed, i + t + s); }
    }
    if t < |a| { assert Shr(b, signed, t) == c; }
  }

  lemma ShlAnyCompose(a: Word, s: nat, t: nat)
    ensures ShlAny(ShlAny(a, s), t) == ShlAny(a, s + t)
    ensures t < |a| ==> Shl(ShlAny(a, s), t) == ShlAny(a, s + t)
  {
    if t < |a| { assert Shl(ShlAny(a, s), t) == ShlAny(ShlAny(a, s), t); }
  }

  // ---------------------------------------------------------------------
  // Words as integers
  // ---------------------------------------------------------------------

  function ToNat(a: Word): nat {
    if |a| == 0 then 0 else (if a[0] then 1 else 0) + 2 * ToNat(a[1..])
  }

  /** The integer a C variable holding `a` denotes. */
  function ToInt(a: Word, signed: bool): int {
    if signed && |a| > 0 && a[|a| - 1] then ToNat(a) - Pow2(|a|) else ToNat(a)
  }

  lemma {:induction false} ToNatBound(a: Word)
    ensures ToNat(a) < Pow2(|a|)
  {
    if a == [] {
    } else {
      ToNatBound(a[1..]);
    }
  }

  lemma {:induction false} ToNatAppend(a: Word, b: Word)
    ensures ToNat(a + b) == ToNat(a) + Pow2(|a|) * ToNat(b)
  {
    if |a| == 0 {
      assert a + b == b;
    } else {
      ToNatAppend(a[1..], b);
      assert (a + b)[1..] == a[1..] + b;
      MulAssociates(2, Pow2(|a| - 1), ToNat(b));
    }
  }

  lemma {:induction false} ToNatOnes(n: nat)
    ensures ToNat(Ones(n)) == Pow2(n) - 1
  {
    if n == 0 {
    } else {
      ToNatOnes(n - 1);
      assert Ones(n)[1..] == Ones(n - 1);
    }
  }

  lemma {:induction false} ToNatZeros(n: nat)
    ensures ToNat(Zeros(n)) == 0
  {
    if n == 0 {
    } else {
      ToNatZeros(n - 1);
      assert Zeros(n)[1..] == Zeros(n - 1);
    }
  }

  /** Converting to `n` bits reduces the denoted integer modulo 2^n. */
  lemma CastIsModulo(a: Word, signed: bool, n: nat)
    requires |a| > 0
    ensures ToNat(Cast(a, signed, n)) == ToInt(a, signed) % Pow2(n)
  {
    var c := Cast(a, signed, n);
    ToNatBound(c);
    assert |c| == n;
    var q := if n <= |a| then CastShrinks(a, signed, n) else CastExtends(a, signed, n);
    ModUnique(ToInt(a, signed), Pow2(n), q, ToNat(c));
  }

  /** The multiple of 2^n that truncation to `n` bits drops. */
  ghost function CastShrinks(a: Word, signed: bool, n: nat): (q: int)
    requires 0 < |a| && n <= |a|
    ensures ToInt(a, signed) == Pow2(n) * q + ToNat(Cast(a, signed, n))
  {
    assert Cast(a, signed, n) == a[..n];
    assert a == a[..n] + a[n..];
    ToNatAppend(a[..n], a[n..]);
    Pow2Add(n, |a| - n);
    var h, p := ToNat(a[n..]), Pow2(|a| - n);
    MulDistributes(Pow2(n), h, p);
    if signed && a[|a| - 1] then h - p else h
  }

  /** The multiple of 2^n that sign extension to `n` bits adds. */
  ghost function CastExtends(a: Word, signed: bool, n: nat): (q: int)
    requires 0 < |a| < n
    ensures ToInt(a, signed) == Pow2(n) * q + ToNat(Cast(a, signed, n))
  {
    if signed && a[|a| - 1] then
      ExtendedValue(a, Ones(n - |a|));
      assert Cast(a, signed, n) == a + Ones(n - |a|);
      -1
    else
      ExtendedValue(a, Zeros(n - |a|));
      assert Cast(a, signed, n) == a + Zeros(n - |a|);
      0
  }

  lemma ExtendedValue(a: Word, tail: Word)
    requires tail == Ones(|tail|) || tail == Zeros(|tail|)
    ensures tail == Zeros(|tail|) ==> ToNat(a + tail) == ToNat(a)
    ensures tail == Ones(|tail|) ==> ToNat(a + tail) - Pow2(|a| + |tail|) == ToNat(a) - Pow2(|a|)
  {
    hide *;
    ToNatAppend(a, tail);
    ToNatOnes(|tail|);
    ToNatZeros(|tail|);
    Pow2Add(|a|, |tail|);
    MulDistributes(Pow2(|a|), Pow2(|tail|), 1);
  }
}
