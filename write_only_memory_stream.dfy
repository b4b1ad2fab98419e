/** `WriteOnlyMemoryStream`: a growable byte buffer with a write head, used to serialise
    registers and varints. */
module WriteOnlyStream {
  import opened FixedWidth
  import ArrayCopy

  /** `ArrayMaxByteArrayLength`: the largest byte array .NET allocates. */
  const MaxByteArrayLength: int := 0x7FFF_FFC7

  const Int32Max: int := 0x7FFF_FFFF

  /** `unchecked((int)x)` for an integer `x`: the two's complement reading of its low 32
      bits. */
  function Wrap32(x: int): (r: int32)
    ensures (r - x) % 0x1_0000_0000 == 0
  {
    var m := x % 0x1_0000_0000;
    if m < 0x8000_0000 then m else m - 0x1_0000_0000
  }

  /** `(uint)x` for an `int` `x`. */
  function AsUInt32(x: int32): (r: uint32)
    ensures r == x || r == x + 0x1_0000_0000
  {
    if x >= 0 then x else x + 0x1_0000_0000
  }

  /** The capacity `EnsureCapacity(value)` grows to from `capacity`: `value`, raised to 256
      and to the doubled capacity, unless doubling (in wrapping `int` arithmetic) passes the
      largest array, in which case that largest array or `value` if bigger. */
  function GrownCapacity(value: int, capacity: int): int
  {
    var newCapacity := if value < 256 then 256 else value;
    var doubled := Wrap32(capacity * 2);
    var newCapacity := if newCapacity < doubled then doubled else newCapacity;
    if AsUInt32(doubled) > MaxByteArrayLength then
      (if value > MaxByteArrayLength then value else MaxByteArrayLength)
    else newCapacity
  }

  /** The growth policy: never less than asked for and never less than 256; at least
      double the old capacity unless that passes the largest array, and then at least the
      largest array; and it stays an `int`. */
  lemma GrowthPolicy(value: int, capacity: int)
    requires 0 <= capacity < value <= Int32Max
    ensures GrownCapacity(value, capacity) >= value
    ensures GrownCapacity(value, capacity) >= 256
    ensures GrownCapacity(value, capacity) <= Int32Max
    ensures 2 * capacity <= MaxByteArrayLength ==> GrownCapacity(value, capacity) >= 2 * capacity
    ensures 2 * capacity > MaxByteArrayLength ==>
      GrownCapacity(value, capacity) == if value > MaxByteArrayLength then value else MaxByteArrayLength
  {
    if capacity * 2 < 0x8000_0000 {
      assert Wrap32(capacity * 2) == capacity * 2;
    } else {
      assert Wrap32(capacity * 2) == capacity * 2 - 0x1_0000_0000;
    }
  }

  /** `s` after writing `data` at `at` (at most `|s|`), extending it when the write runs
      past its end. */
  function Overwrite(s: seq<byte>, at: nat, data: seq<byte>): (r: seq<byte>)
    requires at <= |s|
    ensures |r| == if at + |data| > |s| then at + |data| else |s|
    ensures forall k :: 0 <= k < |r| ==> r[k] == if at <= k < at + |data| then data[k - at] else s[k]
  {
    if at + |data| >= |s| then s[..at] + data else s[..at] + data + s[at + |data|..]
  }

  /** Two writes, the second starting where the first ended, are one write of both. */
  lemma OverwriteTwice(s: seq<byte>, at: nat, a: seq<byte>, b: seq<byte>)
    requires at <= |s|
    ensures at + |a| <= |Overwrite(s, at, a)|
    ensures Overwrite(Overwrite(s, at, a), at + |a|, b) == Overwrite(s, at, a + b)
  {
    var l, r := Overwrite(Overwrite(s, at, a), at + |a|, b), Overwrite(s, at, a + b);
    assert |l| == |r|;
    forall k | 0 <= k < |l|
      ensures l[k] == r[k]
    {
    }
  }

  /** Writing at the end of the contents appends. */
  lemma OverwriteAtEnd(s: seq<byte>, data: seq<byte>)
    ensures Overwrite(s, |s|, data) == s + data
  {
  }

  /** Writing `data` into a buffer and keeping the first `newLength` bytes is writing it
      into the first `oldLength` bytes, when `newLength` is where the write ends or the old
      end, whichever is further. */
  lemma SpliceIsOverwrite(buf: seq<byte>, oldLength: nat, newLength: nat, at: nat, data: seq<byte>)
    requires at <= oldLength <= newLength <= |buf| && at + |data| <= |buf|
    requires newLength == if at + |data| > oldLength then at + |data| else oldLength
    ensures ArrayCopy.Splice(buf, at, data)[..newLength] == Overwrite(buf[..oldLength], at, data)
  {
    var a, b := ArrayCopy.Splice(buf, at, data)[..newLength], Overwrite(buf[..oldLength], at, data);
    assert |a| == |b|;
    forall k | 0 <= k < |a|
      ensures a[k] == b[k]
    {
    }
  }

  class WriteOnlyMemoryStream {
    /** The scratch array `WriteUInt` assembles a word in (`_tmpBuffer`). */
    const tmpBuffer: array<byte>
    /** The storage (`_buffer`); it is replaced when the stream grows. */
    var buffer: array<byte>
    /** The write head (`_position`). */
    var position: int
    /** The number of bytes written (`_length`). */
    var length: int
    /** The usable size of `buffer` (`_capacity`). */
    var capacity: int

    ghost predicate Valid()
      reads this
    {
      tmpBuffer.Length == 4 && tmpBuffer != buffer &&
      0 <= position <= length <= capacity == buffer.Length <= Int32Max
    }

    /** The stream's contents: the first `length` bytes of the buffer. */
    function Bytes(): (r: seq<byte>)
      requires Valid()
      reads this, buffer
      ensures |r| == length
    {
      buffer[..length]
    }

    /** `WriteOnlyMemoryStream()`: empty, with no storage yet. */
    constructor()
      ensures Valid() && fresh(buffer)
      ensures Bytes() == [] && position == 0 && capacity == 0
    {
      tmpBuffer := new byte[4];
      buffer := new byte[0];
      position, length, capacity := 0, 0, 0;
    }

    /** `WriteOnlyMemoryStream(int capacity)`: empty, with room for `initialCapacity` bytes. */
    constructor WithCapacity(initialCapacity: int)
      requires 0 <= initialCapacity <= Int32Max
      ensures Valid() && fresh(buffer)
      ensures Bytes() == [] && position == 0 && capacity == initialCapacity
    {
      tmpBuffer := new byte[4];
      buffer := new byte[initialCapacity];
      position, length, capacity := 0, 0, initialCapacity;
    }

    /** `WriteOnlyMemoryStream(byte[] buffer)`: writes go into the caller's array, whose
        bytes all count as already written; the head starts at 0. */
    constructor FromBuffer(bytes: array<byte>)
      requires bytes.Length <= Int32Max
      ensures Valid() && buffer == bytes
      ensures Bytes() == bytes[..] && position == 0 && capacity == bytes.Length
    {
      tmpBuffer := new byte[4];
      buffer := bytes;
      position, length, capacity := 0, bytes.Length, bytes.Length;
    }

    /** `ToArray()`: a copy of exactly the bytes written. */
    method ToArray() returns (copy: array<byte>)
      requires Valid()
      ensures copy[..] == Bytes()
      ensures fresh(copy) && copy != buffer && copy != tmpBuffer
    {
      copy := new byte[length];
      ArrayCopy.Copy(buffer, 0, copy, 0, length);
      assert buffer[0..length] == buffer[..length];
    }

    /** The `Capacity` setter: moves the written bytes into a new array of `value` bytes.
        The narrower domain of this model is listed with the other contracts stated
        weaker than the C#. */
    method SetCapacity(value: int)
      requires Valid() && length <= value <= Int32Max
      modifies this
      ensures Valid()
      ensures capacity == value && Bytes() == old(Bytes())
      ensures position == old(position) && length == old(length)
      ensures value != old(capacity) ==> fresh(buffer)
      ensures value == old(capacity) ==> buffer == old(buffer)
    {
      if value != capacity {
        var newBuffer := new byte[value];
        if length > 0 {
          ArrayCopy.Copy(buffer, 0, newBuffer, 0, length);
        }
        assert newBuffer[..length] == buffer[..length];
        buffer := newBuffer;
        capacity := value;
      }
    }

    /** `EnsureCapacity(value)`: grows the storage to `GrownCapacity(value, capacity)`
        exactly when `value` exceeds the capacity, and says whether it did. */
    method EnsureCapacity(value: int) returns (grew: bool)
      requires Valid() && value <= Int32Max
      modifies this
      ensures Valid()
      ensures grew <==> value > old(capacity)
      ensures grew ==> capacity == GrownCapacity(value, old(capacity)) && fresh(buffer)
      ensures !grew ==> capacity == old(capacity) && buffer == old(buffer)
      ensures Bytes() == old(Bytes()) && position == old(position) && length == old(length)
      ensures capacity >= value
    {
      if value > capacity {
        var newCapacity := value;
        if newCapacity < 256 {
          newCapacity := 256;
        }
        var doubled := Wrap32(capacity * 2);
        if newCapacity < doubled {
          newCapacity := doubled;
        }
        if AsUInt32(doubled) > MaxByteArrayLength {
          newCapacity := if value > MaxByteArrayLength then value else MaxByteArrayLength;
        }
        GrowthPolicy(value, capacity);
        assert newCapacity == GrownCapacity(value, capacity);
        SetCapacity(newCapacity);
        return true;
      }
      return false;
    }

    /** `Write(buffer, offset, count)`: places `src[offset..offset + count]` at the head,
        extending the contents when it runs past their end, and advances the head past
        it. The head never passes the end of the contents, so no gap is ever zero-filled. */
    method Write(src: array<byte>, offset: int, count: int)
      requires Valid() && 0 <= offset && 0 <= count && offset + count <= src.Length
      requires position + count <= Int32Max
      modifies this, buffer
      ensures Valid()
      ensures buffer == old(buffer) || fresh(buffer)
      ensures Bytes() == Overwrite(old(Bytes()), old(position), old(src[offset..offset + count]))
      ensures position == old(position) + count
      ensures length == if old(position) + count > old(length) then old(position) + count else old(length)
    {
      ghost var before := Bytes();
      ghost var data := src[offset..offset + count];
      var i := position + count;
      if i > length {
        if i > capacity {
          var grew := EnsureCapacity(i);
        }
        length := i;
      }
      ghost var grown := buffer[..];
      assert grown[..old(length)] == before;
      if count <= 8 && src != buffer {
        ArrayCopy.CopyBackward(src, offset, buffer, position, count);
      } else {
        ArrayCopy.Copy(src, offset, buffer, position, count);
      }
      SpliceIsOverwrite(grown, old(length), length, position, data);
      assert buffer[..length] == buffer[..][..length];
      position := i;
    }
 
    /** `WriteByte(value)`: stores `value` at the head, extending the contents by one byte
        when the head is at their end, and advances the head. */
    method WriteByte(value: byte)
      requires Valid() && position + 1 <= Int32Max
      modifies this, buffer
      ensures Valid()
      ensures buffer == old(buffer) || fresh(buffer)
      ensures Bytes() == Overwrite(old(Bytes()), old(position), [value])
      ensures position == old(position) + 1
      ensures length == if old(position) + 1 > old(length) then old(position) + 1 else old(length)
    {
      ghost var before := Bytes();
      if position >= length {
        var newLength := position + 1;
        if newLength >= capacity {
          var grew := EnsureCapacity(newLength);
        }
        length := newLength;
      }
      ghost var grown := buffer[..];
      assert grown[..old(length)] == before;
      buffer[position] := value;
      SpliceIsOverwrite(grown, old(length), length, position, [value]);
      assert buffer[..] == ArrayCopy.Splice(grown, position, [value]);
      assert buffer[..length] == buffer[..][..length];
      position := position + 1;
    }

    /** `WriteUInt(value)`: writes the four bytes of `value`, least significant first. */
    method WriteUInt(value: bv32)
      requires Valid() && position + 4 <= Int32Max
      modifies this, buffer, tmpBuffer
      ensures Valid()
      ensures buffer == old(buffer) || fresh(buffer)
      ensures Bytes() == Overwrite(old(Bytes()), old(position), LittleEndianBytes(value))
      ensures position == old(position) + 4
      ensures length == if old(position) + 4 > old(length) then old(position) + 4 else old(length)
    {
      tmpBuffer[0] := (value & 0xFF) as byte;
      tmpBuffer[1] := ((value >> 8) & 0xFF) as byte;
      tmpBuffer[2] := ((value >> 16) & 0xFF) as byte;
      tmpBuffer[3] := (value >> 24) as byte;
      assert tmpBuffer[0..4] == LittleEndianBytes(value);
      Write(tmpBuffer, 0, 4);
    }
  }
}
