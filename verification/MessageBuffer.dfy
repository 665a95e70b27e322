/** The buffer with a read and a write position that every socket reads into and writes out of. */
module MessageBuffers {
  import opened Bytes

  const INITIAL_SIZE := 4096

  class MessageBuffer {
    var data: array<byte>
    var writePos: nat
    var readPos: nat

    ghost predicate Valid()
      reads this
    {
      readPos <= writePos <= data.Length
    }

    /** The bytes written and not yet consumed. */
    ghost function Active(): bytes
      requires Valid()
      reads this, data
    {
      data[readPos..writePos]
    }

    constructor (size: nat)
      ensures Valid() && fresh(data) && data.Length == size
      ensures Active() == [] && readPos == 0 && writePos == 0
      ensures data[..] == seq(size, _ => 0)
    {
      data := new byte[size](_ => 0);
      writePos, readPos := 0, 0;
    }

    method ActiveSize() returns (n: nat)
      requires Valid()
      ensures n == |Active()|
    {
      n := writePos - readPos;
    }

    method RemainingSize() returns (n: nat)
      requires Valid()
      ensures n == data.Length - writePos
    {
      n := data.Length - writePos;
    }

    method Reset()
      modifies this`writePos, this`readPos
      ensures Valid() && Active() == [] && readPos == 0
    {
      writePos := 0;
      readPos := 0;
    }

    /** Moves the active bytes to the front of the same memory. */
    method Normalize()
      requires Valid()
      modifies this`writePos, this`readPos, data
      ensures Valid() && readPos == 0 && Active() == old(Active())
      ensures data[..] == old(Active()) + old(data[writePos - readPos..])
    {
      if readPos == 0 {
        assert data[..] == Active() + data[writePos - readPos..];
        return;
      }
      if readPos != writePos {
        var n := ActiveSize();
        for i := 0 to n
          modifies data
          invariant forall k :: 0 <= k < i ==> data[k] == old(data[readPos + k])
          invariant forall k :: i <= k < data.Length ==> data[k] == old(data[k])
        {
          data[i] := data[readPos + i];
        }
        assert data[..n] == old(data[readPos..writePos]);
        assert data[n..] == old(data[n..]);
        assert data[..] == data[..n] + data[n..];
      }
      writePos := writePos - readPos;
      readPos := 0;
    }

    /** Grows the memory only when there is no room left behind the write position. */
    method EnsureFreeSpace()
      requires Valid()
      modifies this`data
      ensures Valid() && Active() == old(Active()) && writePos < data.Length
      ensures old(writePos < data.Length) ==> data == old(data)
      ensures data != old(data) ==> fresh(data) && data.Length == old(data.Length) + 4096
    {
      var room := RemainingSize();
      if room > 0 {
        return;
      }
      var grown := new byte[data.Length + INITIAL_SIZE];
      for i := 0 to data.Length
        modifies grown
        invariant forall k :: 0 <= k < i ==> grown[k] == data[k]
      {
        grown[i] := data[i];
      }
      data := grown;
    }

    method ReadCompleted(size: nat)
      requires Valid() && size <= |Active()|
      modifies this`readPos
      ensures Valid() && Active() == old(Active())[size..]
    {
      readPos := readPos + size;
    }

    /** The bytes behind the write position have become active. */
    method WriteCompleted(size: nat)
      requires Valid() && writePos + size <= data.Length
      modifies this`writePos
      ensures Valid() && Active() == old(Active()) + old(data[writePos..writePos + size])
    {
      writePos := writePos + size;
    }

    /** Copies without growing: there must be room. */
    method Write(value: bytes)
      requires Valid() && writePos + |value| <= data.Length
      modifies this`writePos, data
      ensures Valid() && Active() == old(Active()) + value
    {
      if |value| == 0 {
        return;
      }
      Store(value);
      WriteCompleted(|value|);
    }

    /** Fills the memory behind the write position, as memcpy or the operating system does. */
    method Store(value: bytes)
      requires Valid() && writePos + |value| <= data.Length
      modifies data
      ensures Active() == old(Active())
      ensures data[writePos..writePos + |value|] == value
      ensures data[..] == old(data[..writePos]) + value + old(data[writePos + |value|..])
    {
      for i := 0 to |value|
        invariant forall k :: 0 <= k < i ==> data[writePos + k] == value[k]
        invariant forall k :: 0 <= k < writePos || writePos + i <= k < data.Length ==> data[k] == old(data[k])
      {
        data[writePos + i] := value[i];
      }
    }
  }
}
