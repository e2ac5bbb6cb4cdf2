/**
 The growable byte buffer of `src/common/dynamic-buffer.c`.

 Whether `realloc` finds memory is a parameter; the memory it adds has any content.
 */
module DynamicBuffer {
  import opened MachineInt
  import opened Bytes
  import opened BitScan

  /** Memory of which the first `size` bytes are used, made `n` long: old bytes are
      cleared, bytes `realloc` added are `junk`. */
  function Resized(memory: seq<byte>, size: nat, n: nat, junk: seq<byte>): (r: seq<byte>)
    requires size <= |memory| && (n > |memory| ==> |junk| == n - |memory|)
    ensures |r| == n && (forall i | 0 <= i < n && i < size :: r[i] == memory[i])
    ensures forall i | size <= i < n && i < |memory| :: r[i] == 0
  {
    if n <= size then memory[..n]
    else if n <= |memory| then memory[..size] + Zeros(n - size)
    else memory[..size] + Zeros(|memory| - size) + junk
  }

  ghost predicate IsResized(memory: seq<byte>, size: nat, n: nat, r: seq<byte>)
    requires size <= |memory|
  {
    exists junk: seq<byte> :: (n > |memory| ==> |junk| == n - |memory|) && r == Resized(memory, size, n, junk)
  }

  function Zeros(k: nat): (r: seq<byte>)
    ensures |r| == k && forall i | 0 <= i < k :: r[i] == 0
  {
    seq(k, _ => 0)
  }

  /** Growing clears what it adds, whatever `realloc` returns, exactly when it stays
      within the old capacity. */
  lemma ClearedExactly(memory: seq<byte>, size: nat, n: nat)
    requires size <= |memory| && size < n
    ensures (forall junk: seq<byte> | n > |memory| ==> |junk| == n - |memory| ::
               Resized(memory, size, n, junk) == memory[..size] + Zeros(n - size)) <==> n <= |memory|
  {
    if n > |memory| {
      var junk: seq<byte> := seq(n - |memory|, _ => 1);
      assert Resized(memory, size, n, junk)[|memory|] == 1;
      assert (memory[..size] + Zeros(n - size))[|memory|] == 0;
    }
  }

  /** `Undefined`: an assertion fails, a shift is out of range, or freed memory is read. */
  datatype Status = Ok | Error | Undefined

  class DynamicBuffer {
    var data: array<byte>
    var size: nat
    /** The memory was given back, and `data` leads to it still. */
    var freed: bool

    /** The capacity is 0 or a power of two, and holds the content. */
    ghost predicate Valid()
      reads this
    {
      !freed && size <= data.Length && (data.Length == 0 || IsPowerOf2(data.Length))
    }

    ghost function Contents(): seq<byte>
      reads this, data
      requires Valid()
    {
      data[..size]
    }

    constructor ()
      ensures Valid() && fresh(data) && data.Length == 0 && Contents() == []
    {
      data := new byte[0];
      size, freed := 0, false;
    }

    /** The demanded capacity is rounded up; less than the content is refused. */
    method SetCapacity(demanded: nat, memory: bool) returns (status: Status)
      requires Valid() && demanded < TWO64
      modifies this`data
      ensures Valid() && (data == old(data) || fresh(data))
      ensures status.Undefined? <==> demanded == 0 || demanded > TWO63
      ensures status.Ok? <==> 1 <= demanded <= TWO63 && demanded >= size && (memory || Rounds(demanded, old(data.Length)))
      ensures if status.Ok? then Rounds(demanded, data.Length) && data[..size] == old(data[..size])
              else data == old(data)
      ensures status.Ok? && old(data.Length) <= data.Length ==> data[..old(data.Length)] == old(data[..])
    {
      var rounded := RoundToPowerOf2(demanded);
      if rounded.None? {
        return Undefined;
      }
      var capacity := rounded.value;
      if demanded < size {
        return Error;
      }
      if capacity == data.Length {
        return Ok;
      }
      RoundsUnique(demanded, capacity, data.Length);
      if !memory {
        return Error;
      }
      var moved := new byte[capacity];
      var kept := if data.Length < capacity then data.Length else capacity;
      forall i | 0 <= i < kept {
        moved[i] := data[i];
      }
      data := moved;
      return Ok;
    }

    method Append(bytes: seq<byte>, memory: bool) returns (status: Status)
      requires Valid() && size + |bytes| < TWO64
      modifies this`data, this`size, data
      ensures Valid() && (data == old(data) || fresh(data))
      ensures Contents() == if status.Ok? then old(Contents()) + bytes else old(Contents())
      ensures old(size) + |bytes| <= old(data.Length) ==> status.Ok? && data == old(data)
      ensures old(size) + |bytes| > old(data.Length) ==>
                if old(size) + |bytes| > TWO63 then status.Undefined? else if memory then status.Ok? else status.Error?
      ensures if status.Ok? && size > old(data.Length) then Rounds(size, data.Length) else data == old(data)
    {
      if |bytes| == 0 {
        return Ok;
      }
      if data.Length < |bytes| + size {
        NotRounded(data.Length, |bytes| + size);
        status := SetCapacity(data.Length + (|bytes| - (data.Length - size)), memory);
        if !status.Ok? {
          return;
        }
      }
      forall i | 0 <= i < |bytes| {
        data[size + i] := bytes[i];
      }
      size := size + |bytes|;
      return Ok;
    }

    /** The other buffer may be this one: its content is doubled if there is room, but
        growing moves the memory that is to be read. */
    method AppendBuffer(src: DynamicBuffer, memory: bool) returns (status: Status)
      requires Valid() && src.Valid() && (src == this || src.data != data) && size + src.size < TWO64
      modifies this`data, this`size, data
      ensures Valid() && src.Valid() && (src != this ==> src.Contents() == old(src.Contents()))
      ensures status.Ok? ==> Contents() == old(Contents()) + old(src.Contents())
      ensures old(size) + old(src.size) <= old(data.Length) ==> status.Ok?
      ensures old(size) + old(src.size) > old(data.Length) ==>
                if old(size) + old(src.size) > TWO63 then status.Undefined?
                else if !memory then status.Error? && Contents() == old(Contents())
                else status == if src == this then Undefined else Ok
    {
      var moves := src == this && data.Length < size + src.size;
      status := Append(src.data[..src.size], memory);
      if moves && status.Ok? {
        status := Undefined;
      }
    }

    method SetSize(n: nat, memory: bool) returns (status: Status)
      requires Valid() && n < TWO64
      modifies this`data, this`size, data
      ensures Valid() && (data == old(data) || fresh(data))
      ensures !status.Ok? ==> data == old(data) && Contents() == old(Contents())
      ensures n <= old(data.Length) ==> status.Ok?
      ensures n > old(data.Length) ==>
                if n > TWO63 then status.Undefined? else if memory then status.Ok? else status.Error?
      ensures status.Ok? ==> size == n && IsResized(old(data[..]), old(size), n, Contents())
    {
      ghost var before, oldSize, junk := data[..], size, [];
      if n == size {
        assert data[..size] == Resized(before, oldSize, n, junk);
        return Ok;
      }
      if n > data.Length {
        var originalCapacity := data.Length;
        NotRounded(data.Length, n);
        status := SetCapacity(n, memory);
        if !status.Ok? {
          return;
        }
        forall i | size <= i < originalCapacity {
          data[i] := 0;
        }
        junk := data[originalCapacity..n];
      } else if n > size {
        forall i | size <= i < n {
          data[i] := 0;
        }
      }
      size := n;
      assert data[..n] == Resized(before, oldSize, n, junk);
      return Ok;
    }

    /** Frees the memory and leaves the buffer unfit for any other call. */
    method Reset()
      requires Valid()
      modifies this`size, this`freed
      ensures freed && size == 0 && !Valid()
    {
      size := 0;
      freed := true;
    }

    /** Makes an empty buffer of whatever was there. */
    method Init()
      modifies this
      ensures Valid() && Contents() == [] && fresh(data) && data.Length == 0
    {
      data := new byte[0];
      size, freed := 0, false;
    }
  }

  lemma RoundsUnique(x: nat, r: nat, r': nat)
    requires Rounds(x, r)
    ensures Rounds(x, r') ==> r == r'
  {
    if Rounds(x, r') {
      var k: nat :| r == Pow2(k);
      var k': nat :| r' == Pow2(k');
    }
  }

  lemma NotRounded(capacity: nat, demanded: nat)
    requires capacity < demanded
    ensures !Rounds(demanded, capacity)
  {
  }
}
