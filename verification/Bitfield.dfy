/**
 The bit-field codec of `src/common/bitfield.h`.

 A field of `length` bits starting at bit `start` lives in an array of machine
 words ("units") of `ts` bits.  The macros go unit by unit with masks and
 piecewise shifts; here each is a method proved equal to a definition that looks
 at one bit at a time (`FieldWritten`, `FieldValue`).  Both the unit width `ts`
 and the width of the value are arbitrary.
 */
module Bitfield {
  import opened MachineInt
  import opened BitWord
  import opened Bytes

  ghost predicate Units(buf: seq<Word>, ts: nat) {
    forall u | 0 <= u < |buf| :: |buf[u]| == ts
  }

  // ---------------------------------------------------------------------
  // Reference definition, one bit at a time
  // ---------------------------------------------------------------------

  /** Position in memory of bit `j` of unit `u`: low bits come first in little
      endian, high bits come first in big endian. */
  ghost function BitPosition(order: ByteOrder, ts: nat, u: int, j: int): int {
    u * ts + (if order.LittleEndian? then j else ts - 1 - j)
  }

  /** Which bit of the field is stored at position `p`. */
  ghost function FieldIndex(order: ByteOrder, start: nat, length: nat, p: int): int {
    if order.LittleEndian? then p - start else start + length - 1 - p
  }

  ghost function FieldWritten(buf: seq<Word>, order: ByteOrder, ts: nat, start: nat, length: nat,
                              v: Word, signed: bool): seq<Word>
    requires Units(buf, ts) && |v| > 0
  {
    seq(|buf|, u requires 0 <= u < |buf| =>
      seq(ts, j requires 0 <= j < ts =>
        var k := FieldIndex(order, start, length, BitPosition(order, ts, u, j));
        if 0 <= k < length then ExtBit(v, signed, k) else buf[u][j]))
  }

  /** The bit at position `p` of the buffer. */
  ghost function BitAt(buf: seq<Word>, order: ByteOrder, ts: nat, p: nat): bool
    requires ts > 0 && Units(buf, ts) && p < |buf| * ts
  {
    PositionInBuffer(p, |buf|, ts);
    buf[p / ts][if order.LittleEndian? then p % ts else ts - 1 - p % ts]
  }

  /** Bit `k` of the field as stored, extended with its sign (or zero) beyond `length`. */
  ghost function StoredBit(buf: seq<Word>, order: ByteOrder, ts: nat, start: nat, length: nat,
                           signed: bool, k: nat): bool
    requires ts > 0 && Units(buf, ts) && start + length <= |buf| * ts
  {
    if length == 0 then false
    else if k < length then
      BitAt(buf, order, ts, if order.LittleEndian? then start + k else start + length - 1 - k)
    else
      signed && BitAt(buf, order, ts, if order.LittleEndian? then start + length - 1 else start)
  }

  /** The value of the field, as a variable of `width` bits. */
  ghost function FieldValue(buf: seq<Word>, order: ByteOrder, ts: nat, start: nat, length: nat,
                            width: nat, signed: bool): Word
    requires ts > 0 && Units(buf, ts) && start + length <= |buf| * ts
  {
    seq(width, k requires 0 <= k < width => StoredBit(buf, order, ts, start, length, signed, k))
  }

  // ---------------------------------------------------------------------
  // Positions
  // ---------------------------------------------------------------------

  lemma PositionInBuffer(p: nat, n: nat, ts: nat)
    requires ts > 0 && p < n * ts
    ensures 0 <= p / ts < n && 0 <= p % ts < ts
    ensures p == (p / ts) * ts + p % ts
  {
    if p / ts >= n {
      UnitsOrder(n, p / ts, ts);
      assert false;
    }
  }

  lemma UnitsOrder(a: int, b: int, ts: nat)
    ensures a <= b ==> a * ts <= b * ts
    ensures a < b ==> a * ts + ts <= b * ts
  {
    if a < b {
      MulAtLeast(ts, b - a);
      assert (b - a) * ts == b * ts - a * ts;
    }
  }

  /** Position of the first bit of unit `u`. */
  ghost function UnitStart(u: nat, ts: nat): nat {
    if u == 0 then 0 else UnitStart(u - 1, ts) + ts
  }

  lemma {:induction false} UnitStartIsProduct(u: nat, ts: nat)
    ensures UnitStart(u, ts) == u * ts
  {
    if u == 0 {
    } else {
      UnitStartIsProduct(u - 1, ts);
    }
  }

  lemma UnitStartMonotone(a: nat, b: nat, ts: nat)
    requires a <= b
    ensures UnitStart(a, ts) <= UnitStart(b, ts)
    ensures a < b ==> UnitStart(a, ts) + ts <= UnitStart(b, ts)
  {
    UnitStartIsProduct(a, ts);
    UnitStartIsProduct(b, ts);
    UnitsOrder(a, b, ts);
  }

  /** The units a field touches, and the offsets at which it begins in the first
      and ends in the last (0 for the end of the unit). */
  method FieldExtent(ts: nat, start: nat, length: nat, ghost n: nat)
    returns (startUnit: nat, endUnit: nat, startOff: nat, endOff: nat)
    requires ts > 0 && length > 0 && start + length <= n * ts
    ensures startUnit < endUnit <= n && startOff < ts && endOff < ts
    ensures start == UnitStart(startUnit, ts) + startOff
    ensures start + length == UnitStart(endUnit, ts) - (if endOff == 0 then 0 else ts - endOff)
  {
    hide UnitStart;
    var end := start + length;
    startUnit := start / ts;
    endUnit := (end + (ts - 1)) / ts;
    startOff := start % ts;
    endOff := end % ts;
    EndUnit(end, ts);
    UnitStartIsProduct(startUnit, ts);
    UnitStartIsProduct(endUnit, ts);
    ExtentOrder(startUnit, endUnit, n, ts, start, end);
  }

  lemma ExtentOrder(a: int, b: int, n: int, ts: nat, start: int, end: int)
    requires a * ts <= start < end <= b * ts && b * ts - ts < end <= n * ts
    ensures a < b <= n
  {
    UnitsOrder(b, a, ts);
    UnitsOrder(n, b - 1, ts);
  }

  /** Rounding the end of the field up to a unit. */
  lemma EndUnit(end: nat, ts: nat)
    requires ts > 0
    ensures end == ((end + (ts - 1)) / ts) * ts - (if end % ts == 0 then 0 else ts - end % ts)
  {
    var b, r := (end + (ts - 1)) / ts, (end + (ts - 1)) % ts;
    assert end + (ts - 1) == ts * b + r;
    if r == ts - 1 {
      ModUnique(end, ts, b, 0);
    } else {
      ModUnique(end, ts, b - 1, r + 1);
    }
  }

  /** Index in the field of bit 0 of unit `u`; bit `j` has the index `j` above it. */
  ghost function UnitBase(order: ByteOrder, ts: nat, start: nat, length: nat, u: nat): int {
    if order.LittleEndian? then UnitStart(u, ts) - start else start + length - UnitStart(u + 1, ts)
  }

  lemma UnitBaseIsFieldIndex(order: ByteOrder, ts: nat, start: nat, length: nat, u: nat, j: int)
    ensures UnitBase(order, ts, start, length, u) + j == FieldIndex(order, start, length, BitPosition(order, ts, u, j))
  {
    UnitStartIsProduct(u, ts);
  }

  /** The unit `w`, whose bit 0 has field index `base`, after the write. */
  ghost function UnitWritten(w: Word, base: int, length: nat, v: Word, signed: bool): Word
    requires |v| > 0
  {
    seq(|w|, j requires 0 <= j < |w| =>
      if 0 <= base + j < length then ExtBit(v, signed, base + j) else w[j])
  }

  /** A write request: where the field lies and what goes there. */
  datatype Field = Field(order: ByteOrder, ts: nat, start: nat, length: nat, value: Word, signed: bool)

  ghost function UnitAfter(f: Field, w: Word, u: nat): Word
    requires |f.value| > 0
  {
    UnitWritten(w, UnitBase(f.order, f.ts, f.start, f.length, u), f.length, f.value, f.signed)
  }

  /** From `before` to `after`, exactly the units `a..b` received their part of the field. */
  ghost predicate RangeWritten(f: Field, before: seq<Word>, after: seq<Word>, a: int, b: int)
    requires |f.value| > 0
  {
    && |after| == |before|
    && (forall u | 0 <= u < |before| && !(a <= u < b) :: after[u] == before[u])
    && (forall u | 0 <= u < |before| && a <= u < b :: after[u] == UnitAfter(f, before[u], u))
  }

  lemma EmptyRange(f: Field, buf: seq<Word>)
    requires |f.value| > 0
    ensures forall a {:trigger RangeWritten(f, buf, buf, a, a)} :: RangeWritten(f, buf, buf, a, a)
  {
  }

  /** Writing one more unit at either end of the range. */
  lemma ExtendRange(f: Field, before: seq<Word>, now: seq<Word>, a: int, b: int, u: nat)
    requires |f.value| > 0 && u < |now|
    requires RangeWritten(f, before, now, a, b) && a <= b && (u == b || u == a - 1)
    ensures RangeWritten(f, before, now[u := UnitAfter(f, now[u], u)], if u == b then a else u, if u == b then u + 1 else b)
  {
  }

  /** Writing every unit the field touches writes the field. */
  lemma AssembleUnits(f: Field, before: seq<Word>, after: seq<Word>, a: nat, b: nat)
    requires Units(before, f.ts) && |f.value| > 0 && a <= b
    requires UnitStart(a, f.ts) <= f.start && f.start + f.length <= UnitStart(b, f.ts)
    requires RangeWritten(f, before, after, a, b)
    ensures after == FieldWritten(before, f.order, f.ts, f.start, f.length, f.value, f.signed)
  {
    var Field(order, ts, start, length, v, signed) := f;
    var spec := FieldWritten(before, order, ts, start, length, v, signed);
    forall u | 0 <= u < |before|
      ensures after[u] == spec[u]
    {
      UnitOfField(before, order, ts, start, length, v, signed, u);
      if u < a { UnitStartMonotone(u, a, ts); }
      if u >= b { UnitStartMonotone(b, u, ts); }
    }
  }

  lemma UnitOfField(buf: seq<Word>, order: ByteOrder, ts: nat, start: nat, length: nat, v: Word, signed: bool, u: nat)
    requires Units(buf, ts) && |v| > 0 && u < |buf|
    ensures FieldWritten(buf, order, ts, start, length, v, signed)[u]
         == UnitWritten(buf[u], UnitBase(order, ts, start, length, u), length, v, signed)
  {
    forall j | 0 <= j < ts
      ensures FieldWritten(buf, order, ts, start, length, v, signed)[u][j]
           == UnitWritten(buf[u], UnitBase(order, ts, start, length, u), length, v, signed)[j]
    {
      UnitBaseIsFieldIndex(order, ts, start, length, u, j);
    }
  }

  // ---------------------------------------------------------------------
  // Piecewise shifts
  // ---------------------------------------------------------------------

  /** How many whole steps a shift takes, and what is left. */
  method Divide(shift: nat, step: nat) returns (whole: nat, rest: nat)
    requires step > 0
    ensures UnitStart(whole, step) + rest == shift && rest < step
  {
    whole, rest := shift / step, shift % step;
    UnitStartIsProduct(whole, step);
  }

  /** A shift by the width of the type or more is undefined in C; shifting by at
      most `width - 1` at a time gives the intended result for any amount. */
  method PiecewiseRshift(v: Word, signed: bool, shift: nat) returns (r: Word)
    requires |v| >= 2
    ensures r == ShrAny(v, signed, shift)
  {
    hide Shr, Shl, ShrAny, ShlAny, ExtBit;
    var step := |v| - 1;
    var sb, final := Divide(shift, step);
    ghost var n, done := sb, 0;
    ShrAnyZero(v, signed);
    r := v;
    while sb > 0
      invariant 0 <= sb <= n && done == UnitStart(n - sb, step)
      invariant r == ShrAny(v, signed, done)
    {
      ShrAnyCompose(v, signed, done, step);
      r := Shr(r, signed, step);
      done := done + step;
      sb := sb - 1;
    }
    ShrAnyCompose(v, signed, done, final);
    r := Shr(r, signed, final);
  }

  method PiecewiseLshift(v: Word, shift: nat) returns (r: Word)
    requires |v| >= 2
    ensures r == ShlAny(v, shift)
  {
    hide Shr, Shl, ShrAny, ShlAny, ExtBit;
    var step := |v| - 1;
    var sb, final := Divide(shift, step);
    ghost var n, done := sb, 0;
    ShlAnyZero(v);
    r := v;
    while sb > 0
      invariant 0 <= sb <= n && done == UnitStart(n - sb, step)
      invariant r == ShlAny(v, done)
    {
      ShlAnyCompose(v, done, step);
      r := Shl(r, step);
      done := done + step;
      sb := sb - 1;
    }
    ShlAnyCompose(v, done, final);
    r := Shl(r, final);
  }

  // ---------------------------------------------------------------------
  // Writing
  // ---------------------------------------------------------------------

  /** Clearing the bits of `v` above the field does not change what is written. */
  method TrimValue(v: Word, length: nat) returns (r: Word)
    requires |v| > 0
    ensures |r| == |v|
    ensures forall signed, k :: 0 <= k < length ==> ExtBit(r, signed, k) == ExtBit(v, signed, k)
  {
    r := v;
    if length < |v| {
      r := And(v, Not(Shl(Ones(|v|), length)));
    }
  }

  method WriteLe(ptr: array<Word>, ts: nat, start: nat, length: nat, value: Word, signed: bool)
    requires ts > 0 && |value| >= 2
    requires Units(ptr[..], ts) && start + length <= ptr.Length * ts
    modifies ptr
    ensures ptr[..] == FieldWritten(old(ptr[..]), LittleEndian, ts, start, length, value, signed)
  {
    ghost var f := Field(LittleEndian, ts, start, length, value, signed);
    if length == 0 {
      UnitStartIsProduct(ptr.Length, ts);
      AssembleUnits(f, ptr[..], ptr[..], 0, ptr.Length);
      return;
    }
    var startUnit, endUnit, startOff, endOff := FieldExtent(ts, start, length, ptr.Length);
    var v := TrimValue(value, length);
    if startUnit == endUnit - 1 {
      ExtendRange(f, ptr[..], ptr[..], startUnit, startUnit, startUnit);
      ptr[startUnit] := SingleUnit(f, startUnit, ptr[startUnit], v, signed, startOff, endOff);
    } else {
      StoreUnitsLe(f, ptr, ts, v, signed, startUnit, endUnit, startOff, endOff);
    }
    AssembleUnits(f, old(ptr[..]), ptr[..], startUnit, endUnit);
  }

  method WriteBe(ptr: array<Word>, ts: nat, start: nat, length: nat, value: Word, signed: bool)
    requires ts > 0 && |value| >= 2
    requires Units(ptr[..], ts) && start + length <= ptr.Length * ts
    modifies ptr
    ensures ptr[..] == FieldWritten(old(ptr[..]), BigEndian, ts, start, length, value, signed)
  {
    ghost var f := Field(BigEndian, ts, start, length, value, signed);
    if length == 0 {
      UnitStartIsProduct(ptr.Length, ts);
      AssembleUnits(f, ptr[..], ptr[..], 0, ptr.Length);
      return;
    }
    var startUnit, endUnit, startOff, endOff := FieldExtent(ts, start, length, ptr.Length);
    var v := TrimValue(value, length);
    if startUnit == endUnit - 1 {
      ExtendRange(f, ptr[..], ptr[..], startUnit, startUnit, startUnit);
      ptr[startUnit] := SingleUnit(f, startUnit, ptr[startUnit], v, signed, if endOff == 0 then 0 else ts - endOff,
                                   if startOff == 0 then 0 else ts - startOff);
    } else {
      StoreUnitsBe(f, ptr, ts, v, signed, startUnit, endUnit, startOff, endOff);
    }
    AssembleUnits(f, old(ptr[..]), ptr[..], startUnit, endUnit);
  }

  /** The part of the macro for a field that crosses a unit boundary; `vt` is the
      trimmed value. */
  method StoreUnitsLe(ghost f: Field, ptr: array<Word>, ts: nat, vt: Word, signed: bool,
                      startUnit: nat, endUnit: nat, startOff: nat, endOff: nat)
    requires ts > 0 && |vt| >= 2 && |f.value| > 0 && Units(ptr[..], ts)
    requires startUnit < endUnit - 1 && endUnit <= ptr.Length && startOff < ts && endOff < ts
    requires f.order == LittleEndian && f.ts == ts && f.signed == signed
    requires f.start == UnitStart(startUnit, ts) + startOff
    requires f.start + f.length == UnitStart(endUnit, ts) - (if endOff == 0 then 0 else ts - endOff)
    requires forall k | 0 <= k < f.length :: ExtBit(vt, signed, k) == ExtBit(f.value, signed, k)
    modifies ptr
    ensures RangeWritten(f, old(ptr[..]), ptr[..], startUnit, endUnit)
  {
    hide RangeWritten, UnitAfter, ShrAny, ExtBit;
    ghost var before := ptr[..];
    EmptyRange(f, before);
    UnitStartMonotone(startUnit + 1, endUnit - 1, ts);
    var v, thisUnit := vt, startUnit;
    if startOff != 0 {
      ExtendRange(f, before, ptr[..], startUnit, thisUnit, thisUnit);
      ghost var now := ptr[..];
      ptr[thisUnit], v := LowUnit(f, thisUnit, ptr[thisUnit], v, signed, startOff);
      assert ptr[..] == now[thisUnit := ptr[thisUnit]];
      thisUnit := thisUnit + 1;
    } else {
      ShrAnyZero(vt, signed);
    }
    v := StoreWholeUnitsLe(f, ptr, before, startUnit, ts, vt, v, signed, thisUnit, endUnit - 1);
    thisUnit := endUnit - 1;
    ExtendRange(f, before, ptr[..], startUnit, thisUnit, thisUnit);
    ghost var now := ptr[..];
    ptr[thisUnit] := HighUnit(f, thisUnit, ptr[thisUnit], vt, v, signed, endOff);
    assert ptr[..] == now[thisUnit := ptr[thisUnit]];
  }

  method StoreUnitsBe(ghost f: Field, ptr: array<Word>, ts: nat, vt: Word, signed: bool,
                      startUnit: nat, endUnit: nat, startOff: nat, endOff: nat)
    requires ts > 0 && |vt| >= 2 && |f.value| > 0 && Units(ptr[..], ts)
    requires startUnit < endUnit - 1 && endUnit <= ptr.Length && startOff < ts && endOff < ts
    requires f.order == BigEndian && f.ts == ts && f.signed == signed
    requires f.start == UnitStart(startUnit, ts) + startOff
    requires f.start + f.length == UnitStart(endUnit, ts) - (if endOff == 0 then 0 else ts - endOff)
    requires forall k | 0 <= k < f.length :: ExtBit(vt, signed, k) == ExtBit(f.value, signed, k)
    modifies ptr
    ensures RangeWritten(f, old(ptr[..]), ptr[..], startUnit, endUnit)
  {
    hide RangeWritten, UnitAfter, ShrAny, ExtBit;
    ghost var before := ptr[..];
    EmptyRange(f, before);
    UnitStartMonotone(startUnit + 1, endUnit - 1, ts);
    var v, thisUnit := vt, endUnit - 1;
    if endOff != 0 {
      ExtendRange(f, before, ptr[..], endUnit, endUnit, thisUnit);
      ghost var now := ptr[..];
      ptr[thisUnit], v := LowUnit(f, thisUnit, ptr[thisUnit], v, signed, ts - endOff);
      assert ptr[..] == now[thisUnit := ptr[thisUnit]];
      thisUnit := thisUnit - 1;
    } else {
      ShrAnyZero(vt, signed);
    }
    v := StoreWholeUnitsBe(f, ptr, before, endUnit, ts, vt, v, signed, startUnit + 1, thisUnit + 1);
    thisUnit := startUnit;
    ExtendRange(f, before, ptr[..], thisUnit + 1, endUnit, thisUnit);
    ghost var now := ptr[..];
    ptr[thisUnit] := HighUnit(f, thisUnit, ptr[thisUnit], vt, v, signed, if startOff == 0 then 0 else ts - startOff);
    assert ptr[..] == now[thisUnit := ptr[thisUnit]];
  }

  /** The loop over the units that lie wholly inside the field. */
  method StoreWholeUnitsLe(ghost f: Field, ptr: array<Word>, ghost before: seq<Word>, ghost a: nat, ts: nat,
                           ghost vt: Word, v: Word, signed: bool, from: nat, to: nat) returns (r: Word)
    requires |vt| >= 2 && |f.value| > 0 && from <= to <= ptr.Length
    requires forall u | from <= u < to :: |ptr[u]| == ts
    requires f.order.LittleEndian? && f.ts == ts && f.signed == signed
    requires f.start <= UnitStart(from, ts) && UnitStart(to, ts) <= f.start + f.length
    requires v == ShrAny(vt, signed, UnitStart(from, ts) - f.start)
    requires forall k | 0 <= k < f.length :: ExtBit(vt, signed, k) == ExtBit(f.value, signed, k)
    requires a <= from && RangeWritten(f, before, ptr[..], a, from)
    modifies ptr
    ensures f.start <= UnitStart(to, ts) && r == ShrAny(vt, signed, UnitStart(to, ts) - f.start)
    ensures RangeWritten(f, before, ptr[..], a, to)
    ensures forall u | 0 <= u < ptr.Length && !(from <= u < to) :: ptr[u] == old(ptr[u])
  {
    hide RangeWritten, UnitAfter, ExtBit;
    r := v;
    for u := from to to
      invariant f.start <= UnitStart(u, ts) && r == ShrAny(vt, signed, UnitStart(u, ts) - f.start)
      invariant RangeWritten(f, before, ptr[..], a, u)
      invariant forall i | 0 <= i < ptr.Length && !(from <= i < u) :: ptr[i] == old(ptr[i])
    {
      UnitStartMonotone(u, to, ts);
      WholeUnit(f, u, ptr[u], vt);
      ExtendRange(f, before, ptr[..], a, u, u);
      ShrAnyCompose(vt, signed, UnitStart(u, ts) - f.start, ts);
      ghost var now := ptr[..];
      ptr[u] := Cast(r, signed, ts);
      assert ptr[..] == now[u := Cast(r, signed, ts)];
      r := PiecewiseRshift(r, signed, ts);
    }
  }

  /** The same loop in big endian goes down: higher units hold lower bits. */
  method StoreWholeUnitsBe(ghost f: Field, ptr: array<Word>, ghost before: seq<Word>, ghost b: nat, ts: nat,
                           ghost vt: Word, v: Word, signed: bool, from: nat, to: nat) returns (r: Word)
    requires |vt| >= 2 && |f.value| > 0 && from <= to <= ptr.Length
    requires forall u | from <= u < to :: |ptr[u]| == ts
    requires f.order.BigEndian? && f.ts == ts && f.signed == signed
    requires f.start <= UnitStart(from, ts) && UnitStart(to, ts) <= f.start + f.length
    requires v == ShrAny(vt, signed, f.start + f.length - UnitStart(to, ts))
    requires forall k | 0 <= k < f.length :: ExtBit(vt, signed, k) == ExtBit(f.value, signed, k)
    requires to <= b && RangeWritten(f, before, ptr[..], to, b)
    modifies ptr
    ensures UnitStart(from, ts) <= f.start + f.length
    ensures r == ShrAny(vt, signed, f.start + f.length - UnitStart(from, ts))
    ensures RangeWritten(f, before, ptr[..], from, b)
    ensures forall u | 0 <= u < ptr.Length && !(from <= u < to) :: ptr[u] == old(ptr[u])
  {
    hide RangeWritten, UnitAfter, ExtBit;
    r := v;
    for u := to downto from
      invariant UnitStart(u, ts) <= f.start + f.length
      invariant r == ShrAny(vt, signed, f.start + f.length - UnitStart(u, ts))
      invariant RangeWritten(f, before, ptr[..], u, b)
      invariant forall i | 0 <= i < ptr.Length && !(u <= i < to) :: ptr[i] == old(ptr[i])
    {
      UnitStartMonotone(from, u, ts);
      WholeUnit(f, u, ptr[u], vt);
      ExtendRange(f, before, ptr[..], u + 1, b, u);
      ShrAnyCompose(vt, signed, f.start + f.length - UnitStart(u + 1, ts), ts);
      ghost var now := ptr[..];
      ptr[u] := Cast(r, signed, ts);
      assert ptr[..] == now[u := Cast(r, signed, ts)];
      r := PiecewiseRshift(r, signed, ts);
    }
  }

  /** A field inside one unit: it begins at bit `shift` and ends below bit `high`
      (0 for the top of the unit). */
  method SingleUnit(ghost f: Field, ghost u: nat, w: Word, v: Word, signed: bool, shift: nat, high: nat) returns (r: Word)
    requires shift < |w| && high < |w|
    requires |v| > 0 && |f.value| > 0 && f.signed == signed
    requires UnitBase(f.order, f.ts, f.start, f.length, u) + shift == 0
    requires f.length == (if high == 0 then |w| else high) - shift
    requires forall k | 0 <= k < f.length :: ExtBit(v, signed, k) == ExtBit(f.value, signed, k)
    ensures r == UnitAfter(f, w, u)
  {
    var mask := Not(Shl(Ones(|w|), shift));
    if high != 0 {
      mask := Or(mask, Shl(Ones(|w|), high));
    }
    var cmask := Shl(Cast(v, signed, |w|), shift);
    r := Merge(f, u, w, mask, cmask);
  }

  /** The unit that holds the low end of the field, from bit `cshift` up. */
  method LowUnit(ghost f: Field, ghost u: nat, w: Word, v: Word, signed: bool, cshift: nat) returns (r: Word, rest: Word)
    requires 0 < cshift < |w|
    requires |v| >= 2 && |f.value| > 0 && f.signed == signed
    requires UnitBase(f.order, f.ts, f.start, f.length, u) + cshift == 0 && |w| - cshift <= f.length
    requires forall k | 0 <= k < f.length :: ExtBit(v, signed, k) == ExtBit(f.value, signed, k)
    ensures r == UnitAfter(f, w, u)
    ensures rest == ShrAny(v, signed, |w| - cshift)
  {
    var mask := Not(Shl(Ones(|w|), cshift));
    var cmask := Shl(Cast(v, signed, |w|), cshift);
    r := Merge(f, u, w, mask, cmask);
    rest := PiecewiseRshift(v, signed, |w| - cshift);
  }

  /** The unit that holds the high end of the field, below bit `high` (0 for the
      top of the unit); `v` is what is left of the trimmed value `vt`. */
  method HighUnit(ghost f: Field, ghost u: nat, w: Word, ghost vt: Word, v: Word, signed: bool, high: nat) returns (r: Word)
    requires high < |w|
    requires |vt| > 0 && |f.value| > 0 && f.signed == signed
    requires var base := UnitBase(f.order, f.ts, f.start, f.length, u);
             && base >= 0 && v == ShrAny(vt, signed, base)
             && f.length == base + if high == 0 then |w| else high
    requires forall k | 0 <= k < f.length :: ExtBit(vt, signed, k) == ExtBit(f.value, signed, k)
    ensures r == UnitAfter(f, w, u)
  {
    if high != 0 {
      var mask := Shl(Ones(|w|), high);
      var cmask := Cast(v, signed, |w|);
      CastOfShift(vt, signed, UnitBase(f.order, f.ts, f.start, f.length, u), |w|);
      r := Merge(f, u, w, mask, cmask);
    } else {
      WholeUnit(f, u, w, vt);
      r := Cast(v, signed, |w|);
    }
  }

  /** `cmask &= ~mask; unit &= mask; unit |= cmask`: replacing the bits outside
      `mask` replaces the field bits of a unit when `mask` keeps exactly the others. */
  method Merge(ghost f: Field, ghost u: nat, w: Word, mask: Word, c: Word) returns (r: Word)
    requires |w| == |mask| == |c| && |f.value| > 0
    requires var base := UnitBase(f.order, f.ts, f.start, f.length, u);
             && (forall j | 0 <= j < |mask| :: mask[j] <==> !(0 <= base + j < f.length))
             && (forall j | 0 <= j < |mask| && !mask[j] :: c[j] == ExtBit(f.value, f.signed, base + j))
    ensures r == UnitAfter(f, w, u)
  {
    var cmask := And(c, Not(mask));
    r := Or(And(w, mask), cmask);
  }

  /** Bit `j` of the shifted value is bit `s + j` of the value. */
  lemma CastOfShift(v: Word, signed: bool, s: nat, ts: nat)
    requires |v| > 0
    ensures forall j | 0 <= j < ts :: Cast(ShrAny(v, signed, s), signed, ts)[j] == ExtBit(v, signed, s + j)
  {
    var w := ShrAny(v, signed, s);
    forall j | 0 <= j < ts
      ensures Cast(w, signed, ts)[j] == ExtBit(v, signed, s + j)
    {
      if j < |v| {
        assert w[j] == ExtBit(v, signed, j + s);
      } else {
        assert w[|v| - 1] == ExtBit(v, signed, |v| - 1 + s);
      }
    }
  }

  /** Storing the shifted value covers a unit that lies inside the field. */
  lemma WholeUnit(f: Field, u: nat, w: Word, vt: Word)
    requires |vt| > 0 && |f.value| > 0
    requires forall k | 0 <= k < f.length :: ExtBit(vt, f.signed, k) == ExtBit(f.value, f.signed, k)
    requires var base := UnitBase(f.order, f.ts, f.start, f.length, u); 0 <= base && base + |w| <= f.length
    ensures Cast(ShrAny(vt, f.signed, UnitBase(f.order, f.ts, f.start, f.length, u)), f.signed, |w|) == UnitAfter(f, w, u)
  {
    CastOfShift(vt, f.signed, UnitBase(f.order, f.ts, f.start, f.length, u), |w|);
  }

  // ---------------------------------------------------------------------
  // Reading
  // ---------------------------------------------------------------------

  /** A read request: the buffer, where the field lies and how it is extended. */
  datatype Reading = Reading(buf: seq<Word>, order: ByteOrder, ts: nat, start: nat, length: nat, signed: bool) {
    ghost predicate Valid() {
      ts > 0 && length > 0 && Units(buf, ts) && start + length <= |buf| * ts
    }

    ghost function Bit(k: nat): bool
      requires Valid()
    {
      StoredBit(buf, order, ts, start, length, signed, k)
    }

    ghost function Base(u: nat): int {
      UnitBase(order, ts, start, length, u)
    }

    /** The variable once every field bit from index `c` up has been shifted in. */
    ghost function Window(width: nat, c: nat): (w: Word)
      requires Valid()
      ensures |w| == width
    {
      seq(width, i requires 0 <= i < width => Bit(c + i))
    }
  }

  /** A field bit is found in its unit. */
  lemma UnitBit(r: Reading, u: nat, j: nat)
    requires r.Valid() && u < |r.buf| && j < r.ts && 0 <= r.Base(u) + j < r.length
    ensures r.Bit(r.Base(u) + j) == r.buf[u][j]
  {
    var o := if r.order.LittleEndian? then j else r.ts - 1 - j;
    BitOfUnit(r.buf, r.order, r.ts, UnitStart(u, r.ts) + o, u, o);
    hide BitAt;
  }

  lemma BitOfUnit(buf: seq<Word>, order: ByteOrder, ts: nat, p: nat, u: nat, o: nat)
    requires ts > 0 && Units(buf, ts) && u < |buf| && o < ts && p == UnitStart(u, ts) + o
    ensures p < |buf| * ts && BitAt(buf, order, ts, p) == buf[u][if order.LittleEndian? then o else ts - 1 - o]
  {
    PositionSplit(p, ts, u, o, |buf|);
    hide UnitStart;
  }

  lemma PositionSplit(p: nat, ts: nat, u: nat, o: nat, n: nat)
    requires ts > 0 && u < n && o < ts && p == UnitStart(u, ts) + o
    ensures p < n * ts && p / ts == u && p % ts == o
  {
    UnitStartIsProduct(u, ts);
    UnitsOrder(u, n, ts);
    ModUnique(p, ts, u, o);
  }

  lemma UnitBits(r: Reading, u: nat)
    requires r.Valid() && u < |r.buf|
    ensures forall j | 0 <= j < r.ts && 0 <= r.Base(u) + j < r.length :: r.buf[u][j] == r.Bit(r.Base(u) + j)
  {
    hide StoredBit, UnitStart;
    forall j | 0 <= j < r.ts && 0 <= r.Base(u) + j < r.length
      ensures r.buf[u][j] == r.Bit(r.Base(u) + j)
    {
      UnitBit(r, u, j);
    }
  }

  /** `v <<= n; v |= chunk`, piecewise: shifts in the next `n` bits of the field. */
  method ShiftIn(ghost r: Reading, ghost c: nat, v: Word, n: nat, chunk: Word) returns (v': Word)
    requires r.Valid() && |v| >= 2 && v == r.Window(|v|, c)
    requires 0 < n <= |chunk| && n <= c
    requires forall j | 0 <= j < |chunk| :: chunk[j] == (j < n && r.Bit(c - n + j))
    ensures v' == r.Window(|v|, c - n)
  {
    v' := PiecewiseLshift(v, n);
    v' := Or(v', Cast(chunk, false, |v|));
    forall i | 0 <= i < |v|
      ensures v'[i] == r.Bit(c - n + i)
    {
      if i >= n { assert v[i - n] == r.Bit(c + (i - n)); }
    }
  }

  /** The `n` low bits of a unit that holds the high end of the field. */
  method HighChunk(w: Word, n: nat) returns (chunk: Word)
    requires n < |w|
    ensures |chunk| == |w| && forall j | 0 <= j < |w| :: chunk[j] == (j < n && w[j])
  {
    var mask := Not(Shl(Ones(|w|), n));
    chunk := And(w, mask);
  }

  /** The bits of a unit from bit `s` up, brought down to bit 0. */
  method LowChunk(w: Word, s: nat) returns (chunk: Word)
    requires 0 < s < |w|
    ensures |chunk| == |w| && forall j | 0 <= j < |w| :: chunk[j] == (j < |w| - s && w[j + s])
  {
    var mask := Not(Shl(Ones(|w|), |w| - s));
    chunk := Shr(w, false, s);
    ghost var shifted := chunk;
    chunk := And(chunk, mask);
    forall j | 0 <= j < |w|
      ensures chunk[j] == (j < |w| - s && w[j + s])
    {
      assert shifted[j] == ExtBit(w, false, j + s);
    }
  }

  /** A field inside one unit, beginning at bit `s`. */
  method SingleChunk(w: Word, s: nat, length: nat) returns (chunk: Word)
    requires 0 < length && s + length <= |w|
    ensures |chunk| == |w| && forall j | 0 <= j < |w| :: chunk[j] == (j < length && w[j + s])
  {
    chunk := Shr(w, false, s);
    ghost var shifted := chunk;
    if length % |w| != 0 {
      assert length < |w|;
      var mask := Not(Shl(Ones(|w|), length));
      chunk := And(chunk, mask);
    } else {
      assert length == |w| by { if length < |w| { ModUnique(length, |w|, 0, length); } }
    }
    forall j | 0 <= j < |w|
      ensures chunk[j] == (j < length && w[j + s])
    {
      assert shifted[j] == ExtBit(w, false, j + s);
    }
  }

  /** The starting value: all ones exactly when the field is signed and negative. */
  method SignFill(ghost r: Reading, ghost u: nat, ghost j: nat, width: nat, negative: bool) returns (v: Word)
    requires r.Valid() && u < |r.buf| && j < r.ts && r.Base(u) + j == r.length - 1
    requires negative == (r.signed && r.buf[u][j])
    ensures v == r.Window(width, r.length)
  {
    v := if negative then Ones(width) else Zeros(width);
    UnitBit(r, u, j);
    var w := r.Window(width, r.length);
    forall i | 0 <= i < width
      ensures w[i] == negative
    {
      assert w[i] == r.Bit(r.length + i);
    }
  }

  method ReadLe(ptr: array<Word>, ts: nat, start: nat, length: nat, width: nat, signed: bool) returns (v: Word)
    requires ts > 0 && width >= 2
    requires Units(ptr[..], ts) && start + length <= ptr.Length * ts
    ensures v == FieldValue(ptr[..], LittleEndian, ts, start, length, width, signed)
  {
    if length == 0 {
      return Zeros(width);
    }
    ghost var r := Reading(ptr[..], LittleEndian, ts, start, length, signed);
    var startUnit, endUnit, startOff, endOff := FieldExtent(ts, start, length, ptr.Length);
    var thisUnit := endUnit - 1;
    var top := if endOff == 0 then ts else endOff;
    v := SignFill(r, thisUnit, top - 1, width, signed && ptr[thisUnit][top - 1]);
    if startUnit == endUnit - 1 {
      var chunk := SingleChunk(ptr[thisUnit], startOff, length);
      UnitBits(r, thisUnit);
      v := ShiftIn(r, length, v, length, chunk);
    } else {
      v := ReadUnitsLe(r, ptr, ts, v, startUnit, endUnit, startOff, endOff);
    }
  }

  method ReadBe(ptr: array<Word>, ts: nat, start: nat, length: nat, width: nat, signed: bool) returns (v: Word)
    requires ts > 0 && width >= 2
    requires Units(ptr[..], ts) && start + length <= ptr.Length * ts
    ensures v == FieldValue(ptr[..], BigEndian, ts, start, length, width, signed)
  {
    if length == 0 {
      return Zeros(width);
    }
    ghost var r := Reading(ptr[..], BigEndian, ts, start, length, signed);
    var startUnit, endUnit, startOff, endOff := FieldExtent(ts, start, length, ptr.Length);
    v := SignFill(r, startUnit, ts - startOff - 1, width, signed && ptr[startUnit][ts - startOff - 1]);
    if startUnit == endUnit - 1 {
      var chunk := SingleChunk(ptr[startUnit], if endOff == 0 then 0 else ts - endOff, length);
      UnitBits(r, startUnit);
      v := ShiftIn(r, length, v, length, chunk);
    } else {
      v := ReadUnitsBe(r, ptr, ts, v, startUnit, endUnit, startOff, endOff);
    }
  }

  /** A field that crosses a unit boundary is shifted in from its high end. */
  method ReadUnitsLe(ghost r: Reading, ptr: array<Word>, ts: nat, filled: Word, startUnit: nat, endUnit: nat,
                     startOff: nat, endOff: nat) returns (v: Word)
    requires r.Valid() && r.buf == ptr[..] && r.ts == ts && r.order == LittleEndian
    requires startUnit < endUnit - 1 && endUnit <= ptr.Length && startOff < ts && endOff < ts
    requires r.start == UnitStart(startUnit, ts) + startOff
    requires r.start + r.length == UnitStart(endUnit, ts) - (if endOff == 0 then 0 else ts - endOff)
    requires |filled| >= 2 && filled == r.Window(|filled|, r.length)
    ensures v == r.Window(|filled|, 0)
  {
    hide Reading.Window, Reading.Bit;
    UnitStartMonotone(startUnit + 1, endUnit - 1, ts);
    v := filled;
    var thisUnit := endUnit - 1;
    if endOff != 0 {
      v := ReadHighUnit(r, thisUnit, ptr[thisUnit], v, endOff);
      thisUnit := thisUnit - 1;
    }
    v := ReadWholeUnitsLe(r, ptr, ts, v, startUnit + 1, thisUnit + 1);
    v := ReadLowUnit(r, startUnit, ptr[startUnit], v, startOff);
  }

  method ReadUnitsBe(ghost r: Reading, ptr: array<Word>, ts: nat, filled: Word, startUnit: nat, endUnit: nat,
                     startOff: nat, endOff: nat) returns (v: Word)
    requires r.Valid() && r.buf == ptr[..] && r.ts == ts && r.order == BigEndian
    requires startUnit < endUnit - 1 && endUnit <= ptr.Length && startOff < ts && endOff < ts
    requires r.start == UnitStart(startUnit, ts) + startOff
    requires r.start + r.length == UnitStart(endUnit, ts) - (if endOff == 0 then 0 else ts - endOff)
    requires |filled| >= 2 && filled == r.Window(|filled|, r.length)
    ensures v == r.Window(|filled|, 0)
  {
    hide Reading.Window, Reading.Bit;
    UnitStartMonotone(startUnit + 1, endUnit - 1, ts);
    v := filled;
    var thisUnit := startUnit;
    if startOff != 0 {
      v := ReadHighUnit(r, thisUnit, ptr[thisUnit], v, ts - startOff);
      thisUnit := thisUnit + 1;
    }
    v := ReadWholeUnitsBe(r, ptr, ts, v, thisUnit, endUnit - 1);
    v := ReadLowUnit(r, endUnit - 1, ptr[endUnit - 1], v, if endOff == 0 then 0 else ts - endOff);
  }

  /** The unit with the high end of the field, which is its `n` low bits. */
  method ReadHighUnit(ghost r: Reading, ghost u: nat, w: Word, v: Word, n: nat) returns (v': Word)
    requires r.Valid() && u < |r.buf| && w == r.buf[u] && 0 < n < |w|
    requires r.Base(u) >= 0 && r.Base(u) + n == r.length
    requires |v| >= 2 && v == r.Window(|v|, r.length)
    ensures v' == r.Window(|v|, r.Base(u))
  {
    hide Reading.Window, Reading.Bit;
    UnitBits(r, u);
    var chunk := HighChunk(w, n);
    v' := ShiftIn(r, r.length, v, n, chunk);
  }

  /** The unit with the low end of the field, which is its bits from `s` up. */
  method ReadLowUnit(ghost r: Reading, ghost u: nat, w: Word, v: Word, s: nat) returns (v': Word)
    requires r.Valid() && u < |r.buf| && w == r.buf[u] && s < |w|
    requires r.Base(u) + s == 0 && |w| - s <= r.length
    requires |v| >= 2 && v == r.Window(|v|, |w| - s)
    ensures v' == r.Window(|v|, 0)
  {
    hide Reading.Window, Reading.Bit;
    UnitBits(r, u);
    if s != 0 {
      var chunk := LowChunk(w, s);
      v' := ShiftIn(r, |w| - s, v, |w| - s, chunk);
    } else {
      v' := ShiftIn(r, |w|, v, |w|, w);
    }
  }

  /** The loop over the units that lie wholly inside the field. */
  method ReadWholeUnitsLe(ghost r: Reading, ptr: array<Word>, ts: nat, v0: Word, from: nat, to: nat) returns (v: Word)
    requires r.Valid() && r.buf == ptr[..] && r.ts == ts && r.order == LittleEndian
    requires from <= to <= ptr.Length
    requires r.start <= UnitStart(from, ts) && UnitStart(to, ts) <= r.start + r.length
    requires r.start <= UnitStart(to, ts) && |v0| >= 2 && v0 == r.Window(|v0|, r.Base(to))
    ensures v == r.Window(|v0|, r.Base(from))
  {
    hide Reading.Window, Reading.Bit;
    v := v0;
    for u := to downto from
      invariant r.start <= UnitStart(u, ts) && v == r.Window(|v0|, r.Base(u))
    {
      UnitStartMonotone(from, u, ts);
      UnitStartMonotone(u + 1, to, ts);
      UnitBits(r, u);
      v := ShiftIn(r, r.Base(u + 1), v, ts, ptr[u]);
    }
  }

  method ReadWholeUnitsBe(ghost r: Reading, ptr: array<Word>, ts: nat, v0: Word, from: nat, to: nat) returns (v: Word)
    requires r.Valid() && r.buf == ptr[..] && r.ts == ts && r.order == BigEndian
    requires from <= to <= ptr.Length
    requires r.start <= UnitStart(from, ts) && UnitStart(to, ts) <= r.start + r.length
    requires UnitStart(from, ts) <= r.start + r.length
    requires |v0| >= 2 && v0 == r.Window(|v0|, r.Base(from) + ts)
    ensures r.Base(to) + ts >= 0 && v == r.Window(|v0|, r.Base(to) + ts)
  {
    hide Reading.Window, Reading.Bit;
    v := v0;
    for u := from to to
      invariant r.Base(u) + ts >= 0 && v == r.Window(|v0|, r.Base(u) + ts)
    {
      UnitStartMonotone(from, u, ts);
      UnitStartMonotone(u + 1, to, ts);
      UnitBits(r, u);
      v := ShiftIn(r, r.Base(u) + ts, v, ts, ptr[u]);
    }
  }
}
