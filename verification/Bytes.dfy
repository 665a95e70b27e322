/** Bytes, and the little-endian reading and writing of numbers. */
module Bytes {
  import opened Arithmetic

  type byte = n: int | 0 <= n < 256
  type bytes = seq<byte>

  function Power256(len: nat): nat
    ensures Power256(len) >= 1
  {
    if len == 0 then 1 else 256 * Power256(len - 1)
  }

  function LeValue(bs: bytes): nat {
    if bs == [] then 0 else bs[0] + 256 * LeValue(bs[1..])
  }

  function LeBytes(n: nat, len: nat): (bs: bytes)
    ensures |bs| == len
  {
    if len == 0 then [] else [n % 256] + LeBytes(n / 256, len - 1)
  }

  /** Writing and reading back keeps a number that fits, and truncates one that does not. */
  lemma {:induction false} LeRoundTrip(n: nat, len: nat)
    ensures LeValue(LeBytes(n, len)) < Power256(len)
    ensures LeValue(LeBytes(n, len)) == n % Power256(len)
    ensures n < Power256(len) <==> LeValue(LeBytes(n, len)) == n
  {
    if len == 0 {
    } else {
      LeRoundTrip(n / 256, len - 1);
      var bs := LeBytes(n, len);
      assert bs[0] == n % 256 && bs[1..] == LeBytes(n / 256, len - 1);
      SplitMod(n, Power256(len - 1));
    }
  }

  lemma SplitMod(n: nat, m: nat)
    requires m > 0
    ensures n % 256 + 256 * (n / 256 % m) == n % (256 * m)
    ensures n < 256 * m <==> n / 256 < m
  {
    var q := n / 256;
    assert q == m * (q / m) + q % m;
    assert n == (256 * m) * (q / m) + (n % 256 + 256 * (q % m));
    ModUnique(n, 256 * m, q / m, n % 256 + 256 * (q % m));
  }

  /** Reading and writing back keeps every byte. */
  lemma {:induction false} LeBytesOfValue(bs: bytes)
    ensures LeBytes(LeValue(bs), |bs|) == bs
    ensures LeValue(bs) < Power256(|bs|)
  {
    if bs != [] {
      LeBytesOfValue(bs[1..]);
      assert LeValue(bs) % 256 == bs[0] && LeValue(bs) / 256 == LeValue(bs[1..]);
      assert bs == [bs[0]] + bs[1..];
    }
  }

  /** The big-endian reading. */
  function BeValue(bs: bytes): nat {
    if bs == [] then 0 else 256 * BeValue(bs[..|bs| - 1]) + bs[|bs| - 1]
  }

  function Reversed(bs: bytes): (r: bytes)
    ensures |r| == |bs|
  {
    if bs == [] then [] else [bs[|bs| - 1]] + Reversed(bs[..|bs| - 1])
  }

  lemma {:induction false} ReversedAt(bs: bytes, k: nat)
    requires k < |bs|
    ensures Reversed(bs)[k] == bs[|bs| - 1 - k]
  {
    if k > 0 {
      ReversedAt(bs[..|bs| - 1], k - 1);
    }
  }

  lemma {:induction false} BeIsLeReversed(bs: bytes)
    ensures BeValue(bs) == LeValue(Reversed(bs))
  {
    if bs != [] {
      BeIsLeReversed(bs[..|bs| - 1]);
      assert Reversed(bs)[1..] == Reversed(bs[..|bs| - 1]);
    }
  }

  function Xor(a: byte, b: byte): byte {
    ((a as bv8) ^ (b as bv8)) as int
  }

  function XorAll(a: bytes, b: bytes): (r: bytes)
    requires |a| == |b|
    ensures |r| == |a|
  {
    seq(|a|, i requires 0 <= i < |a| => Xor(a[i], b[i]))
  }

  lemma TwoBytesValue(bs: bytes)
    requires |bs| == 2
    ensures LeValue(bs) == bs[0] as int + 256 * (bs[1] as int) < 65536
  {
    assert LeValue(bs[1..]) == bs[1] as int + 256 * LeValue(bs[1..][1..]);
    assert bs[1..][1..] == [];
  }

  lemma BitsAgain(x: bv8)
    ensures (x as int) as bv8 == x
  {
  }

  lemma NextBits(x: bv8)
    requires x as int < 255
    ensures (x + 1) as int == x as int + 1
  {
  }

  /** Every byte is the number of some bits. */
  lemma {:induction false} SomeBits(a: nat) returns (x: bv8)
    requires a < 256
    ensures x as int == a
    decreases a
  {
    if a == 0 {
      x := 0;
    } else {
      var y := SomeBits(a - 1);
      NextBits(y);
      x := y + 1;
    }
  }

  lemma ByteAgain(a: byte)
    ensures (a as bv8) as int == a
  {
    var x := SomeBits(a);
    BitsAgain(x);
  }

  lemma BitsTwice(x: bv8, y: bv8)
    ensures (x ^ y) ^ y == x
  {
  }

  /** Exclusive or undoes itself, and is that of the bits. */
  lemma XorTwice(a: byte, b: byte)
    ensures Xor(Xor(a, b), b) == a && Xor(a, b) as bv8 == (a as bv8) ^ (b as bv8)
  {
    BitsAgain((a as bv8) ^ (b as bv8));
    XorBack(Xor(a, b), a, b);
  }

  lemma XorBack(c: byte, a: byte, b: byte)
    requires c as bv8 == (a as bv8) ^ (b as bv8)
    ensures Xor(c, b) == a
  {
    BitsTwice(a as bv8, b as bv8);
    ByteAgain(a);
  }
}
