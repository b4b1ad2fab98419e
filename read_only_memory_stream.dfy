/** `ReadOnlyMemoryStream`: a read cursor over a byte array, with bulk, single-byte and
    little-endian word reads. */
module ReadOnlyStream {
  import opened FixedWidth
  import ArrayCopy

  class ReadOnlyMemoryStream {
    /** The bytes being read (`_buffer`). */
    const buffer: array<byte>
    /** The end of the readable bytes (`_length`), fixed at construction. */
    const length: int
    /** The read head (`_position`). */
    var position: int

    ghost predicate Valid()
      reads this
    {
      length == buffer.Length && 0 <= position <= length
    }

    /** The bytes not yet read. */
    function Remaining(): (r: seq<byte>)
      requires Valid()
      reads this, buffer
      ensures |r| == length - position
    {
      buffer[position..]
    }

    /** `ReadOnlyMemoryStream(byte[])`: reads `bytes` from the start. */
    constructor(bytes: array<byte>)
      ensures Valid()
      ensures buffer == bytes && position == 0 && Remaining() == bytes[..]
    {
      buffer := bytes;
      length := bytes.Length;
      position := 0;
    }

    /** How many bytes `Read` delivers for a request of `count`: what is left, at most
        `count`, and never negative. */
    function Available(count: int): (n: int)
      requires Valid()
      reads this
      ensures 0 <= n <= length - position
      ensures count <= 0 || position == length <==> n == 0
      ensures n > 0 ==> n == count || position + n == length
    {
      var n := length - position;
      var n := if n > count then count else n;
      if n <= 0 then 0 else n
    }

    /** `Read(buffer, offset, count)`: copies the next `Available(count)` bytes into
        `dest` at `offset`, advances past them and returns their number; the caller's bytes
        outside the copied range are untouched. */
    method Read(dest: array<byte>, offset: int, count: int) returns (n: int)
      requires Valid() && dest != buffer
      requires Available(count) > 0 ==> 0 <= offset && offset + Available(count) <= dest.Length
      modifies this`position, dest
      ensures Valid()
      ensures n == old(Available(count))
      ensures position == old(position) + n
      ensures n > 0 ==>
        dest[..] == ArrayCopy.Splice(old(dest[..]), offset, old(Remaining())[..n])
      ensures n == 0 ==> dest[..] == old(dest[..])
    {
      n := length - position;
      if n > count {
        n := count;
      }
      if n <= 0 {
        return 0;
      }
      assert n == Available(count);
      if n <= 8 {
        ArrayCopy.CopyBackward(buffer, position, dest, offset, n);
      } else {
        ArrayCopy.Copy(buffer, position, dest, offset, n);
      }
      assert buffer[position..position + n] == buffer[position..][..n];
      position := position + n;
    }

    /** `ReadByte()`: the next byte, advancing past it, or -1 without moving at the end. */
    method ReadByte() returns (b: int)
      requires Valid()
      modifies this`position
      ensures Valid()
      ensures old(position) == length ==> b == -1 && position == old(position)
      ensures old(position) < length ==>
        0 <= b < 256 && b == buffer[old(position)] as int && position == old(position) + 1
      ensures b == -1 <==> old(Remaining()) == []
      ensures b != -1 ==> b == old(Remaining())[0] as int && Remaining() == old(Remaining())[1..]
    {
      if position >= length {
        return -1;
      }
      b := buffer[position] as int;
      position := position + 1;
    }

    /** `ReadInt32()`: the little-endian `int` in the next four bytes, advancing past them.
        The C# method does no bounds check, so four bytes must remain. */
    method ReadInt32() returns (v: int32)
      requires Valid() && position + 4 <= length
      modifies this`position
      ensures Valid()
      ensures position == old(position) + 4
      ensures v == AsInt32(LittleEndian(buffer[old(position)], buffer[old(position) + 1],
                                        buffer[old(position) + 2], buffer[old(position) + 3]))
    {
      position := position + 4;
      var pos := position;
      v := AsInt32(LittleEndian(buffer[pos - 4], buffer[pos - 3], buffer[pos - 2], buffer[pos - 1]));
    }
  }

  /** Reading a word back from the four bytes `LittleEndianBytes(w)` gives `w` as a signed
      int. */
  method ReadInt32RoundTrip(w: bv32) returns (v: int32)
    ensures v == AsInt32(w)
  {
    var bytes := new byte[4];
    var le := LittleEndianBytes(w);
    bytes[0], bytes[1], bytes[2], bytes[3] := le[0], le[1], le[2], le[3];
    var stream := new ReadOnlyMemoryStream(bytes);
    v := stream.ReadInt32();
  }
}
