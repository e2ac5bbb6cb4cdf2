/**
 Unsigned integers laid out as bytes, in either byte order.
 */
module Bytes {
  import opened MachineInt

  type byte = b: nat | b < 256

  datatype ByteOrder = LittleEndian | BigEndian

  /** 256^k. */
  function Bound(k: nat): (r: nat)
    ensures r >= 1
  {
    if k == 0 then 1 else 256 * Bound(k - 1)
  }

  /** The `k` low bytes of `v`, lowest first. */
  function LowFirst(v: nat, k: nat): (s: seq<byte>)
    ensures |s| == k
    decreases k
  {
    if k == 0 then [] else [v % 256] + LowFirst(v / 256, k - 1)
  }

  function ValueLowFirst(s: seq<byte>): nat {
    if s == [] then 0 else s[0] + 256 * ValueLowFirst(s[1..])
  }

  function Reversed(s: seq<byte>): (r: seq<byte>)
    ensures |r| == |s|
  {
    if s == [] then [] else Reversed(s[1..]) + [s[0]]
  }

  /** An unsigned integer of `k` bytes in memory. */
  function Encode(order: ByteOrder, v: nat, k: nat): (s: seq<byte>)
    ensures |s| == k
  {
    if order.LittleEndian? then LowFirst(v, k) else Reversed(LowFirst(v, k))
  }

  function Decode(order: ByteOrder, s: seq<byte>): nat {
    ValueLowFirst(if order.LittleEndian? then s else Reversed(s))
  }

  lemma {:induction false} ReversedAppend(s: seq<byte>, b: byte)
    ensures Reversed(s + [b]) == [b] + Reversed(s)
  {
    if s == [] {
    } else {
      assert (s + [b])[1..] == s[1..] + [b];
      ReversedAppend(s[1..], b);
    }
  }

  lemma {:induction false} ReversedTwice(s: seq<byte>)
    ensures Reversed(Reversed(s)) == s
  {
    if s == [] {
    } else {
      ReversedTwice(s[1..]);
      ReversedAppend(Reversed(s[1..]), s[0]);
    }
  }

  lemma {:induction false} LowFirstRoundTrip(v: nat, k: nat)
    requires v < Bound(k)
    ensures ValueLowFirst(LowFirst(v, k)) == v
    decreases k
  {
    if k == 0 {
    } else {
      LowFirstRoundTrip(v / 256, k - 1);
      assert LowFirst(v, k)[1..] == LowFirst(v / 256, k - 1);
    }
  }

  /** Decoding undoes encoding, for a value that fits. */
  lemma DecodeEncode(order: ByteOrder, v: nat, k: nat)
    requires v < Bound(k)
    ensures Decode(order, Encode(order, v, k)) == v
  {
    LowFirstRoundTrip(v, k);
    ReversedTwice(LowFirst(v, k));
  }

  /** Which byte is where: byte `i` of the memory is digit `i` of the value to the base 256,
      counted from the other end in big-endian order. */
  lemma EncodedByte(order: ByteOrder, v: nat, k: nat, i: nat)
    requires i < k
    ensures Encode(order, v, k)[i] == v / Bound(if order.LittleEndian? then i else k - 1 - i) % 256
  {
    LowFirstAt(v, k, if order.LittleEndian? then i else k - 1 - i);
    ReversedAt(LowFirst(v, k), i);
  }

  lemma {:induction false} LowFirstAt(v: nat, k: nat, i: nat)
    requires i < k
    ensures LowFirst(v, k)[i] == v / Bound(i) % 256
    decreases k
  {
    if i == 0 {
    } else {
      LowFirstAt(v / 256, k - 1, i - 1);
      DivideTwice(v, Bound(i - 1));
    }
  }

  lemma DivideTwice(v: nat, b: nat)
    requires b > 0
    ensures v / 256 / b == v / (256 * b)
  {
    var q, r := v / 256, v % 256;
    var x, y := q / b, q % b;
    assert v == 256 * (b * x + y) + r;
    assert 256 * (b * x + y) == 256 * b * x + 256 * y;
    assert 0 <= 256 * y + r < 256 * b;
    ModUnique(v, 256 * b, x, 256 * y + r);
  }

  lemma {:induction false} ReversedAt(s: seq<byte>, i: nat)
    requires i < |s|
    ensures Reversed(s)[i] == s[|s| - 1 - i]
  {
    if i == |s| - 1 {
    } else {
      ReversedAt(s[1..], i);
    }
  }

  lemma {:induction false} LowFirstOf(s: seq<byte>)
    ensures ValueLowFirst(s) < Bound(|s|) && LowFirst(ValueLowFirst(s), |s|) == s
  {
    if s == [] {
    } else {
      LowFirstOf(s[1..]);
      var v := ValueLowFirst(s);
      assert v / 256 == ValueLowFirst(s[1..]) && v % 256 == s[0];
    }
  }

  /** Any bytes are the encoding of their value. */
  lemma EncodeDecode(order: ByteOrder, s: seq<byte>)
    ensures Decode(order, s) < Bound(|s|) && Encode(order, Decode(order, s), |s|) == s
  {
    var t := if order.LittleEndian? then s else Reversed(s);
    LowFirstOf(t);
    ReversedTwice(s);
  }

  /** Byte `i` of the `k` that hold `v`. */
  function Digit(order: ByteOrder, v: nat, k: nat, i: nat): byte
    requires i < k
  {
    v / Bound(if order.LittleEndian? then i else k - 1 - i) % 256
  }

  /** The `k` bytes of `s` at `at` are the digits of `v` to the base 256. */
  ghost predicate FieldAt(order: ByteOrder, s: seq<byte>, at: nat, k: nat, v: nat) {
    at + k <= |s| && v < Bound(k) && forall i | 0 <= i < k :: s[at + i] == Digit(order, v, k, i)
  }

  lemma Digits(order: ByteOrder, s: seq<byte>, at: nat, k: nat, v: nat)
    requires at + k <= |s|
    ensures s[at..at + k] == Encode(order, v, k) <==> forall i | 0 <= i < k :: s[at + i] == Digit(order, v, k, i)
  {
    forall i | 0 <= i < k
      ensures Encode(order, v, k)[i] == Digit(order, v, k, i)
    {
      EncodedByte(order, v, k, i);
    }
    hide Encode, Digit;
    if s[at..at + k] == Encode(order, v, k) {
      forall i | 0 <= i < k
        ensures s[at + i] == Digit(order, v, k, i)
      {
        assert s[at..at + k][i] == s[at + i];
      }
    }
  }

  lemma FieldIs(order: ByteOrder, s: seq<byte>, at: nat, k: nat, v: nat)
    requires at + k <= |s|
    ensures FieldAt(order, s, at, k, v) <==> Decode(order, s[at..at + k]) == v
  {
    hide Encode, Decode, Bound, Digit;
    Digits(order, s, at, k, v);
    EncodeDecode(order, s[at..at + k]);
    if FieldAt(order, s, at, k, v) {
      DecodeEncode(order, v, k);
    }
  }

  lemma Bounds()
    ensures Bound(1) == 256 && Bound(4) == 0x1_0000_0000 && Bound(8) == 0x1_0000_0000_0000_0000
  {
    assert Bound(2) == 0x1_0000;
    assert Bound(4) == 0x1_0000_0000;
    assert Bound(6) == 0x1_0000_0000_0000;
  }
}
