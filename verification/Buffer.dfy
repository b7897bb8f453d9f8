// The growable byte buffer that every other component appends to. The C struct's
// capacity is the length of its data array.
module Buffers {
  import opened Bytes

  // Overwriting s at the given offset with a block, with the gap (if the block
  // starts beyond the end of s) padded with the fill byte.
  function Overwrite(s: seq<byte>, fill: byte, offset: nat, block: seq<byte>): (r: seq<byte>)
    ensures |r| == if offset + |block| > |s| then offset + |block| else |s|
    ensures forall i :: offset <= i < offset + |block| ==> r[i] == block[i - offset]
    ensures forall i :: 0 <= i < |s| && !(offset <= i < offset + |block|) ==> r[i] == s[i]
    ensures forall i :: |s| <= i < offset ==> r[i] == fill
  {
    if offset >= |s| then s + Repeat(fill, offset - |s|) + block
    else if offset + |block| > |s| then s[..offset] + block
    else s[..offset] + block + s[offset + |block|..]
  }

  class Buffer {
    var data: array<byte>
    var length: nat
    var fill: byte

    // Everything between the length and the capacity holds the fill byte.
    ghost predicate Valid()
      reads this, data
    {
      && data.Length >= 1
      && length <= data.Length
      && forall i :: length <= i < data.Length ==> data[i] == fill
    }

    ghost function Contents(): (s: seq<byte>)
      requires length <= data.Length
      reads this, data
    {
      data[..length]
    }

    constructor (initialSize: nat, fill: byte)
      requires initialSize >= 1
      ensures Valid() && fresh(data)
      ensures Contents() == [] && this.fill == fill && data.Length == initialSize
    {
      this.fill := fill;
      data := new byte[initialSize](_ => fill);
      length := 0;
    }

    // A copy of src in newly allocated memory.
    constructor CopyOf(src: Buffer)
      requires src.Valid()
      ensures Valid() && fresh(data)
      ensures Contents() == src.Contents() && fill == src.fill && data.Length == src.data.Length
    {
      var from, n, f := src.data, src.length, src.fill;
      data := new byte[src.data.Length](i requires 0 <= i < from.Length reads from => if i < n then from[i] else f);
      length := src.length;
      fill := src.fill;
    }

    // Copy src into this buffer, reusing its memory when that is large enough.
    method DeepCopy(src: Buffer)
      requires Valid() && src.Valid() && src != this && src.data != data
      modifies this, data
      ensures Valid() && (data == old(data) || fresh(data))
      ensures Contents() == src.Contents() && fill == src.fill
      ensures data.Length == if old(data.Length) < src.data.Length then src.data.Length else old(data.Length)
    {
      if data.Length < src.data.Length {
        data := new byte[src.data.Length](_ => 0);
      }
      length := src.length;
      fill := src.fill;
      forall i | 0 <= i < length {
        data[i] := src.data[i];
      }
      ghost var copied := src.Contents();
      assert data[..length] == copied;
      var ptr := length;
      while ptr < data.Length
        modifies data
        invariant length <= ptr <= data.Length
        invariant data[..length] == copied
        invariant forall i :: length <= i < ptr ==> data[i] == fill
      {
        data[ptr] := fill;
        ptr := ptr + 1;
      }
    }

    method ZeroLength()
      requires Valid()
      modifies this`length, data
      ensures Valid() && Contents() == []
    {
      length := 0;
      var i := 0;
      while i < data.Length
        modifies data
        invariant 0 <= i <= data.Length
        invariant forall j :: 0 <= j < i ==> data[j] == fill
      {
        data[i] := fill;
        i := i + 1;
      }
    }

    // Cut off the end, as the XSVF compiler does to drop a mask. The bytes stay where they are,
    // so that the buffer is as the other operations need it only if they were fill bytes.
    method Shorten(n: nat)
      requires Valid() && n <= length
      modifies this`length
      ensures length == n && Contents() == old(Contents()[..n])
      ensures Valid() <==> forall i :: n <= i < old(length) ==> data[i] == fill
    {
      length := n;
    }

    // Double the capacity until a block ending at blockEnd fits. The bytes of that
    // block beyond the old capacity are left for the caller to set.
    method Reallocate(blockEnd: nat)
      requires Valid() && blockEnd > data.Length
      modifies this`data
      ensures fresh(data) && blockEnd <= data.Length < 2 * blockEnd
      ensures data[..old(data.Length)] == old(data[..])
      ensures forall i :: blockEnd <= i < data.Length ==> data[i] == fill
    {
      var newCapacity := 2 * data.Length;
      while blockEnd > newCapacity
        invariant data.Length <= newCapacity < 2 * blockEnd
        decreases blockEnd - newCapacity
      {
        newCapacity := 2 * newCapacity;
      }
      var bigger := new byte[newCapacity](_ => 0);
      forall i | 0 <= i < data.Length {
        bigger[i] := data[i];
      }
      ghost var kept := data[..];
      ghost var n := data.Length;
      assert bigger[..n] == kept;
      data := bigger;
      var ptr := blockEnd;
      while ptr < newCapacity
        modifies bigger
        invariant blockEnd <= ptr <= newCapacity
        invariant bigger[..n] == kept
        invariant forall i :: blockEnd <= i < ptr ==> bigger[i] == fill
      {
        data[ptr] := fill;
        ptr := ptr + 1;
      }
    }

    // Make room for a block that ends at blockEnd.
    method EnsureCapacity(blockEnd: nat)
      requires Valid()
      modifies this`data
      ensures data == old(data) || fresh(data)
      ensures blockEnd <= data.Length && old(data.Length) <= data.Length
      ensures if blockEnd <= old(data.Length) then data == old(data) else data.Length < 2 * blockEnd
      ensures length <= data.Length && Contents() == old(Contents())
      ensures forall i :: blockEnd <= i < data.Length && length <= i ==> data[i] == fill
    {
      if blockEnd > data.Length {
        ghost var before := data[..];
        Reallocate(blockEnd);
        assert data[..length] == before[..length];
      }
    }

    method AppendBlock(block: seq<byte>)
      requires Valid()
      modifies this`data, this`length, data
      ensures Valid() && (data == old(data) || fresh(data))
      ensures Contents() == old(Contents()) + block
      ensures data.Length == old(data.Length) || data.Length < 2 * length
    {
      var blockEnd := length + |block|;
      EnsureCapacity(blockEnd);
      forall i | 0 <= i < |block| {
        data[length + i] := block[i];
      }
      length := blockEnd;
    }

    method AppendByte(b: byte)
      requires Valid()
      modifies this`data, this`length, data
      ensures Valid() && (data == old(data) || fresh(data))
      ensures Contents() == old(Contents()) + [b]
    {
      EnsureCapacity(length + 1);
      data[length] := b;
      length := length + 1;
    }

    method AppendConst(value: byte, count: nat)
      requires Valid()
      modifies this`data, this`length, data
      ensures Valid() && (data == old(data) || fresh(data))
      ensures Contents() == old(Contents()) + Repeat(value, count)
    {
      AppendBlock(Repeat(value, count));
    }

    method AppendWordBE(word: nat)
      requires Valid() && word < 0x1_0000
      modifies this`data, this`length, data
      ensures Valid() && (data == old(data) || fresh(data))
      ensures Contents() == old(Contents()) + [word / 256, word % 256]
    {
      AppendBlock([word / 256, word % 256]);
    }

    method AppendLongBE(lword: nat)
      requires Valid() && lword < 0x1_0000_0000
      modifies this`data, this`length, data
      ensures Valid() && (data == old(data) || fresh(data))
      ensures Contents() == old(Contents()) + LongBE(lword)
    {
      AppendBlock(LongBE(lword));
    }

    // Make the buffer reach at least to bufAddress + count, padding any gap in
    // front of bufAddress with the fill byte. The block itself may hold anything.
    method MaybeReallocate(bufAddress: nat, count: nat)
      requires Valid()
      modifies this`data, this`length, data
      ensures (data == old(data) || fresh(data)) && old(data.Length) <= data.Length
      ensures length == (if bufAddress + count > old(length) then bufAddress + count else old(length)) <= data.Length
      ensures forall i :: 0 <= i < length && !(bufAddress <= i < bufAddress + count) ==>
                data[i] == if i < old(length) then old(data[i]) else fill
      ensures forall i :: length <= i < data.Length ==> data[i] == fill
    {
      ghost var before := Contents();
      var blockEnd := bufAddress + count;
      if bufAddress >= length {
        EnsureCapacity(blockEnd);
        var ptr := length;
        while ptr < bufAddress
          modifies data
          invariant length <= ptr <= bufAddress <= blockEnd <= data.Length
          invariant data[..length] == before
          invariant forall i :: length <= i < ptr ==> data[i] == fill
          invariant forall i :: blockEnd <= i < data.Length ==> data[i] == fill
        {
          data[ptr] := fill;
          ptr := ptr + 1;
        }
        assert forall i :: 0 <= i < length ==> data[i] == before[i];
        length := blockEnd;
      } else if blockEnd > length {
        EnsureCapacity(blockEnd);
        assert forall i :: 0 <= i < length ==> data[i] == Contents()[i];
        length := blockEnd;
      }
    }

    method WriteBlock(offset: nat, block: seq<byte>)
      requires Valid()
      modifies this`data, this`length, data
      ensures Valid() && (data == old(data) || fresh(data))
      ensures Contents() == Overwrite(old(Contents()), fill, offset, block)
    {
      ghost var before := Contents();
      MaybeReallocate(offset, |block|);
      assert offset + |block| <= length;
      forall i | offset <= i < offset + |block| {
        data[i] := block[i - offset];
      }
      ghost var after := Overwrite(before, fill, offset, block);
      forall i | 0 <= i < length
        ensures data[i] == after[i]
      {
        if i < |before| && !(offset <= i < offset + |block|) {
          assert before[i] == old(data[i]);
        }
      }
      assert |after| == length;
      assert Contents() == after;
    }

    method WriteConst(offset: nat, value: byte, count: nat)
      requires Valid()
      modifies this`data, this`length, data
      ensures Valid() && (data == old(data) || fresh(data))
      ensures Contents() == Overwrite(old(Contents()), fill, offset, Repeat(value, count))
    {
      WriteBlock(offset, Repeat(value, count));
    }

    method WriteLongBE(offset: nat, lword: nat)
      requires Valid() && lword < 0x1_0000_0000
      modifies this`data, this`length, data
      ensures Valid() && (data == old(data) || fresh(data))
      ensures Contents() == Overwrite(old(Contents()), fill, offset, LongBE(lword))
    {
      WriteBlock(offset, LongBE(lword));
    }
  }

  // Exchange the memory owned by two buffers.
  method Swap(x: Buffer, y: Buffer)
    requires x.Valid() && y.Valid()
    modifies x, y
    ensures x.Valid() && y.Valid()
    ensures x.data == old(y.data) && y.data == old(x.data)
    ensures x.fill == old(y.fill) && y.fill == old(x.fill)
    ensures x.Contents() == old(y.Contents()) && y.Contents() == old(x.Contents())
  {
    x.data, y.data := y.data, x.data;
    x.length, y.length := y.length, x.length;
    x.fill, y.fill := y.fill, x.fill;
  }
}
