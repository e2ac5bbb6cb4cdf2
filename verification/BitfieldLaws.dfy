/**
 What the bit-field codec promises, stated on the bit-by-bit definitions the
 macros were proved equal to: a written field reads back, disjoint fields do not
 disturb one another, and the bytes in memory do not depend on the unit width.
 */
module BitfieldLaws {
  import opened MachineInt
  import opened BitWord
  import opened Bitfield
  import opened Bytes

  /** A write changes the bit at position `p` if and only if `p` lies in the field. */
  lemma WrittenBit(buf: seq<Word>, order: ByteOrder, ts: nat, start: nat, length: nat, v: Word, signed: bool, p: nat)
    requires ts > 0 && Units(buf, ts) && |v| > 0 && p < |buf| * ts
    ensures BitAt(FieldWritten(buf, order, ts, start, length, v, signed), order, ts, p)
         == (var k := FieldIndex(order, start, length, p);
             if 0 <= k < length then ExtBit(v, signed, k) else BitAt(buf, order, ts, p))
  {
    PositionInBuffer(p, |buf|, ts);
    var u, j := p / ts, if order.LittleEndian? then p % ts else ts - 1 - p % ts;
    assert BitPosition(order, ts, u, j) == p;
    assert FieldWritten(buf, order, ts, start, length, v, signed)[u][j]
        == (var k := FieldIndex(order, start, length, BitPosition(order, ts, u, j));
            if 0 <= k < length then ExtBit(v, signed, k) else buf[u][j]);
  }

  /** Reading back a written field: the value cut to `length` bits, then extended
      with zeros or with its sign to the width of the variable read into. */
  lemma ReadBack(buf: seq<Word>, order: ByteOrder, ts: nat, start: nat, length: nat, v: Word, signed: bool,
                 width: nat, signedRead: bool)
    requires ts > 0 && length > 0 && Units(buf, ts) && |v| > 0 && start + length <= |buf| * ts
    ensures FieldValue(FieldWritten(buf, order, ts, start, length, v, signed), order, ts, start, length, width, signedRead)
         == Cast(Cast(v, signed, length), signedRead, width)
  {
    var after := FieldWritten(buf, order, ts, start, length, v, signed);
    var c := Cast(v, signed, length);
    forall k: nat | k < length
      ensures StoredBit(after, order, ts, start, length, signedRead, k) == c[k]
    {
      WrittenBit(buf, order, ts, start, length, v, signed,
                 if order.LittleEndian? then start + k else start + length - 1 - k);
    }
    assert StoredBit(after, order, ts, start, length, signedRead, length - 1) == c[length - 1];
    var read := FieldValue(after, order, ts, start, length, width, signedRead);
    forall k | 0 <= k < width
      ensures read[k] == Cast(c, signedRead, width)[k]
    {
      assert read[k] == StoredBit(after, order, ts, start, length, signedRead, k);
      assert Cast(c, signedRead, width)[k] == ExtBit(c, signedRead, k);
    }
  }

  /** The same as integers.  An unsigned variable reads the written integer modulo
      2^length; a signed one reads the integer congruent to it that fits in
      `length` bits of two's complement. */
  lemma ReadBackValue(buf: seq<Word>, order: ByteOrder, ts: nat, start: nat, length: nat, v: Word, signed: bool,
                      width: nat, signedRead: bool)
    requires ts > 0 && Units(buf, ts) && |v| > 0 && start + length <= |buf| * ts
    requires 0 < length <= width
    ensures var x := ToInt(v, signed);
            var y := ToInt(FieldValue(FieldWritten(buf, order, ts, start, length, v, signed),
                                      order, ts, start, length, width, signedRead), signedRead);
            && (!signedRead ==> y == x % Pow2(length))
            && (signedRead ==> FitsSigned(y, length) && (x - y) % Pow2(length) == 0)
  {
    hide FieldValue, FieldWritten, ToNat, Pow2, FitsSigned;
    ReadBack(buf, order, ts, start, length, v, signed, width, signedRead);
    var c := Cast(v, signed, length);
    CastIsModulo(v, signed, length);
    WideningPreserves(c, signedRead, width);
    if signedRead { SignedResidue(c, ToInt(v, signed)); }
  }

  /** A value the field can represent comes back unchanged. */
  lemma RepresentableReadsBack(buf: seq<Word>, order: ByteOrder, ts: nat, start: nat, length: nat, v: Word,
                               width: nat, signed: bool)
    requires ts > 0 && Units(buf, ts) && |v| > 0 && start + length <= |buf| * ts
    requires 0 < length <= width
    ensures var y := ToInt(FieldValue(FieldWritten(buf, order, ts, start, length, v, signed),
                                      order, ts, start, length, width, signed), signed);
            y == ToInt(v, signed)
            <==> if signed then FitsSigned(ToInt(v, signed), length) else ToInt(v, signed) < Pow2(length)
  {
    ReadBackValue(buf, order, ts, start, length, v, signed, width, signed);
    var x := ToInt(v, signed);
    var y := ToInt(FieldValue(FieldWritten(buf, order, ts, start, length, v, signed),
                              order, ts, start, length, width, signed), signed);
    UniqueResidue(x, y, length, signed);
  }

  /** The integers `n` bits of two's complement represent. */
  ghost predicate FitsSigned(x: int, n: nat)
    requires n > 0
  {
    0 <= x + Pow2(n - 1) && x < Pow2(n - 1)
  }

  lemma UniqueResidue(x: int, y: int, n: nat, signed: bool)
    requires n > 0 && (!signed ==> x >= 0)
    requires if signed then FitsSigned(y, n) && (x - y) % Pow2(n) == 0 else y == x % Pow2(n)
    ensures y == x <==> if signed then FitsSigned(x, n) else x < Pow2(n)
  {
    if signed {
      SignedIsUnique(x, y, Pow2(n - 1));
    } else if x < Pow2(n) {
      ModUnique(x, Pow2(n), 0, x);
    }
  }

  lemma SignedIsUnique(x: int, y: int, h: nat)
    requires h > 0 && 0 <= y + h && y < h && (x - y) % (2 * h) == 0
    ensures y == x <==> 0 <= x + h && x < h
  {
    var q := (x - y) / (2 * h);
    assert x - y == 2 * h * q;
    MulAtLeast(2 * h, q);
  }

  lemma WideningPreserves(c: Word, signed: bool, width: nat)
    requires 0 < |c| <= width
    ensures ToInt(Cast(c, signed, width), signed) == ToInt(c, signed)
  {
    if width == |c| {
      assert Cast(c, signed, width) == c;
    } else {
      var tail := if signed && c[|c| - 1] then Ones(width - |c|) else Zeros(width - |c|);
      assert Cast(c, signed, width) == c + tail;
      ExtendedValue(c, tail);
    }
  }

  /** Two's complement picks the residue around zero. */
  lemma SignedResidue(c: Word, x: int)
    requires |c| > 0 && ToNat(c) == x % Pow2(|c|)
    ensures FitsSigned(ToInt(c, true), |c|)
    ensures (x - ToInt(c, true)) % Pow2(|c|) == 0
  {
    TopBit(c);
    var d := Pow2(|c|);
    var q := x / d;
    MulDistributes(d, q, 1);
    ModUnique(x - ToInt(c, true), d, if c[|c| - 1] then q + 1 else q, 0);
  }

  lemma TopBit(c: Word)
    requires |c| > 0
    ensures if c[|c| - 1] then Pow2(|c| - 1) <= ToNat(c) < Pow2(|c|) else ToNat(c) < Pow2(|c| - 1)
  {
    var n := |c| - 1;
    assert c == c[..n] + [c[n]];
    ToNatAppend(c[..n], [c[n]]);
    ToNatBound(c[..n]);
    assert ToNat([c[n]]) == if c[n] then 1 else 0;
  }

  /** Writing one field leaves the value of a disjoint field alone. */
  lemma DisjointFields(buf: seq<Word>, order: ByteOrder, ts: nat, start: nat, length: nat, v: Word, signed: bool,
                       start': nat, length': nat, width: nat, signedRead: bool)
    requires ts > 0 && Units(buf, ts) && |v| > 0
    requires start' + length' <= |buf| * ts
    requires start + length <= start' || start' + length' <= start
    ensures FieldValue(FieldWritten(buf, order, ts, start, length, v, signed), order, ts, start', length', width, signedRead)
         == FieldValue(buf, order, ts, start', length', width, signedRead)
  {
    var after := FieldWritten(buf, order, ts, start, length, v, signed);
    var x, y := FieldValue(after, order, ts, start', length', width, signedRead),
                FieldValue(buf, order, ts, start', length', width, signedRead);
    forall k | 0 <= k < width
      ensures x[k] == y[k]
    {
      if length' > 0 {
        var i := if k < length' then k else length' - 1;
        WrittenBit(buf, order, ts, start, length, v, signed,
                   if order.LittleEndian? then start' + i else start' + length' - 1 - i);
      }
    }
  }

  // ---------------------------------------------------------------------
  // Unit width
  // ---------------------------------------------------------------------

  /** The bits of the buffer in the order they lie in memory when the units are
      laid out in the same byte order. */
  ghost function MemoryImage(buf: seq<Word>, order: ByteOrder, ts: nat): seq<bool>
    requires ts > 0 && Units(buf, ts)
  {
    seq(|buf| * ts, p requires 0 <= p < |buf| * ts => BitAt(buf, order, ts, p))
  }

  /** A write as a splice of the memory image; the unit width does not occur. */
  ghost function Spliced(image: seq<bool>, order: ByteOrder, start: nat, length: nat, v: Word, signed: bool): seq<bool>
    requires |v| > 0
  {
    seq(|image|, p requires 0 <= p < |image| =>
      var k := FieldIndex(order, start, length, p);
      if 0 <= k < length then ExtBit(v, signed, k) else image[p])
  }

  lemma WriteIsSplice(buf: seq<Word>, order: ByteOrder, ts: nat, start: nat, length: nat, v: Word, signed: bool)
    requires ts > 0 && Units(buf, ts) && |v| > 0
    ensures MemoryImage(FieldWritten(buf, order, ts, start, length, v, signed), order, ts)
         == Spliced(MemoryImage(buf, order, ts), order, start, length, v, signed)
  {
    var x := MemoryImage(FieldWritten(buf, order, ts, start, length, v, signed), order, ts);
    var y := Spliced(MemoryImage(buf, order, ts), order, start, length, v, signed);
    forall p | 0 <= p < |buf| * ts
      ensures x[p] == y[p]
    {
      WrittenBit(buf, order, ts, start, length, v, signed, p);
    }
  }

  /** Writing through wide units and through narrow ones (bytes, say) turns the same
      memory into the same memory. */
  lemma UnitWidthDoesNotMatter(wide: seq<Word>, narrow: seq<Word>, order: ByteOrder, ts: nat, ts': nat,
                               start: nat, length: nat, v: Word, signed: bool)
    requires ts > 0 && ts' > 0 && Units(wide, ts) && Units(narrow, ts') && |v| > 0
    requires MemoryImage(wide, order, ts) == MemoryImage(narrow, order, ts')
    ensures MemoryImage(FieldWritten(wide, order, ts, start, length, v, signed), order, ts)
         == MemoryImage(FieldWritten(narrow, order, ts', start, length, v, signed), order, ts')
  {
    WriteIsSplice(wide, order, ts, start, length, v, signed);
    WriteIsSplice(narrow, order, ts', start, length, v, signed);
  }
}
