/** The byte conversions of the big-number wrapper, in the form written out for OpenSSL before 1.1:
    the library itself only reads and writes minimal big-endian strings. */
module BigNumbers {
  import opened Bytes

  /** What BN_bn2bin writes. */
  function BeMinimal(n: nat): bytes {
    if n == 0 then [] else BeMinimal(n / 256) + [n % 256]
  }

  lemma {:induction false} MinimalFits(n: nat, len: nat)
    ensures |BeMinimal(n)| <= len <==> n < Power256(len)
    decreases len
  {
    if n == 0 {
    } else if len == 0 {
    } else {
      MinimalFits(n / 256, len - 1);
    }
  }

  /** The padded little-endian form lists the minimal big-endian form backwards and then zeros. */
  lemma {:induction false} PaddedAt(n: nat, len: nat, k: nat)
    requires |BeMinimal(n)| <= len && k < len
    ensures LeBytes(n, len)[k] == var m := BeMinimal(n); if k < |m| then m[|m| - 1 - k] else 0
  {
    if k > 0 {
      assert LeBytes(n, len)[k] == LeBytes(n / 256, len - 1)[k - 1];
      PaddedAt(n / 256, len - 1, k - 1);
    }
  }

  class BigNumber {
    var value: nat

    constructor ()
      ensures value == 0
    {
      value := 0;
    }

    method SetBinary(data: array<byte>, littleEndian: bool)
      modifies this
      ensures value == if littleEndian then LeValue(data[..]) else BeValue(data[..])
    {
      if littleEndian {
        var length := data.Length;
        var copy := new byte[length];
        for i := 0 to length
          invariant forall k :: 0 <= k < i ==> copy[k] == data[length - 1 - k]
        {
          copy[i] := data[length - 1 - i];
        }
        forall k | 0 <= k < length ensures copy[..][k] == Reversed(data[..])[k] {
          ReversedAt(data[..], k);
        }
        assert copy[..] == Reversed(data[..]);
        BeIsLeReversed(copy[..]);
        ReversedTwice(data[..]);
        value := BeValue(copy[..]);
      } else {
        value := BeValue(data[..]);
      }
    }

    /** Writes exactly buffer.Length bytes, padded with zeros at the most significant end.  The code
        asserts that the number fits. */
    method GetBytes(buffer: array<byte>, littleEndian: bool)
      requires value < Power256(buffer.Length)
      modifies buffer
      ensures buffer[..] == if littleEndian then LeBytes(value, buffer.Length) else Reversed(LeBytes(value, buffer.Length))
    {
      var length := buffer.Length;
      var digits := BeMinimal(value);
      MinimalFits(value, length);
      var count := |digits|;
      if count < length {
        for i := 0 to length
          invariant forall k :: 0 <= k < i ==> buffer[k] == 0
        {
          buffer[i] := 0;
        }
      }
      for i := 0 to count
        invariant forall k :: 0 <= k < length - count ==> buffer[k] == 0
        invariant forall k :: 0 <= k < i ==> buffer[length - count + k] == digits[k]
      {
        buffer[length - count + i] := digits[i];
      }
      ghost var padded := LeBytes(value, length);
      forall k | 0 <= k < length ensures buffer[..][k] == Reversed(padded)[k] {
        PaddedAt(value, length, length - 1 - k);
        ReversedAt(padded, k);
        assert k >= length - count ==> buffer[length - count + (k - (length - count))] == digits[k - (length - count)];
      }
      assert buffer[..] == Reversed(padded);
      if littleEndian {
        ReverseInPlace(buffer);
        ReversedTwice(padded);
      }
    }
  }

  lemma ReversedTwice(bs: bytes)
    ensures Reversed(Reversed(bs)) == bs
  {
    forall k | 0 <= k < |bs| ensures Reversed(Reversed(bs))[k] == bs[k] {
      ReversedAt(Reversed(bs), k);
      ReversedAt(bs, |bs| - 1 - k);
    }
  }

  method ReverseInPlace(a: array<byte>)
    modifies a
    ensures a[..] == Reversed(old(a[..]))
  {
    var first, last := 0, a.Length;
    while first < last
      invariant 0 <= first <= a.Length && last == a.Length - first && first <= last + 1
      invariant forall k :: first <= k < last ==> a[k] == old(a[k])
      invariant forall k :: 0 <= k < a.Length && (k < first || k >= last) ==> a[k] == old(a[a.Length - 1 - k])
    {
      last := last - 1;
      a[first], a[last] := a[last], a[first];
      first := first + 1;
    }
    forall k | 0 <= k < a.Length ensures a[..][k] == Reversed(old(a[..]))[k] {
      ReversedAt(old(a[..]), k);
    }
  }
}
