/** The growing output buffer: every operation is concatenation at the end. */
module ByteBuffers {
  import opened Bytes

  /** The code asserts that a buffer is smaller than this before anything is appended. */
  const SIZE_LIMIT := 10000000

  class ByteBuffer {
    var data: bytes
    var writePos: nat

    /** Writing always happens at the end. */
    ghost predicate Valid()
      reads this
    {
      writePos == |data|
    }

    constructor ()
      ensures Valid() && data == []
    {
      data := [];
      writePos := 0;
    }

    /** Makes room behind the write position if necessary and copies the value there. */
    method Append(value: bytes)
      requires Valid() && value != [] && |data| < SIZE_LIMIT
      modifies this
      ensures Valid() && data == old(data) + value
    {
      var newSize := writePos + |value|;
      if |data| < newSize {
        data := data + seq(newSize - |data|, _ => 0);
      }
      data := data[..writePos] + value + data[newSize..];
      writePos := newSize;
    }

    method Put8(value: nat)
      requires Valid() && |data| < SIZE_LIMIT
      modifies this
      ensures Valid() && data == old(data) + [value % 256]
    {
      Append([value % 256]);
    }

    method Put16(value: nat)
      requires Valid() && |data| < SIZE_LIMIT
      modifies this
      ensures Valid() && data == old(data) + LeBytes(value, 2)
    {
      Append(LeBytes(value, 2));
    }

    method Put32(value: nat)
      requires Valid() && |data| < SIZE_LIMIT
      modifies this
      ensures Valid() && data == old(data) + LeBytes(value, 4)
    {
      Append(LeBytes(value, 4));
    }

    /** A string goes out with a terminating zero, an empty one as the zero alone. */
    method PutString(value: bytes)
      requires Valid() && |data| + |value| < SIZE_LIMIT
      modifies this
      ensures Valid() && data == old(data) + value + [0]
    {
      if |value| > 0 {
        Append(value);
      }
      Append([0]);
    }

    method AppendBuffer(buffer: ByteBuffer)
      requires Valid() && buffer.Valid() && |data| < SIZE_LIMIT
      modifies this
      ensures Valid() && data == old(data) + old(buffer.data)
    {
      if buffer.writePos == 0 {
        return;
      }
      Append(buffer.data[..buffer.writePos]);
    }

    method Resize(newSize: nat)
      modifies this
      ensures Valid() && |data| == newSize
      ensures forall i :: 0 <= i < newSize ==> data[i] == if i < |old(data)| then old(data)[i] else 0
    {
      data := if newSize <= |data| then data[..newSize] else data + seq(newSize - |data|, _ => 0);
      writePos := |data|;
    }
  }
}
