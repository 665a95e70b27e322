/** The group of the SRP-6 exchange: generator 7 and a 256-bit modulus given in hexadecimal. */
module SrpGroup {
  import opened Arithmetic
  import opened Bytes
  import opened ModularPower
  import opened InterleavedHash
  import opened HexString

  /** The generator and the modulus as the server sends them, least significant byte first. */
  const G: bytes := [7]
  const HEX0 := "894B645E89E1535B"
  const HEX1 := "BDAD5B8B29065053"
  const HEX2 := "0801B18EBFBF5E8F"
  const HEX3 := "AB3C82872A3E9BB7"
  const N_HEX := HEX0 + HEX1 + HEX2 + HEX3
  const N: EphemeralKey := HexBytes(N_HEX, true)

  function Modulus(): (n: nat)
    ensures 1 < n < Power256(EPHEMERAL_KEY_LENGTH)
  {
    ModulusValue();
    LeBytesOfValue(N);
    LeValue(N)
  }

  function Generator(): nat {
    LeValue(G)
  }

  // ---------- the value of the modulus ----------

  lemma FourDigits(value: string, i: nat)
    requires i + 4 <= |value| && AllDigits(value)
    ensures HexPrefix(value, i + 4) == 0x10000 * HexPrefix(value, i) + Word(value, i)
  {
    assert HexPrefix(value, i + 2) == 16 * HexPrefix(value, i + 1) + DigitValue(value[i + 1]);
  }

  function Word(value: string, i: nat): nat
    requires i + 4 <= |value| && AllDigits(value)
  {
    0x1000 * DigitValue(value[i]) + 0x100 * DigitValue(value[i + 1])
    + 0x10 * DigitValue(value[i + 2]) + DigitValue(value[i + 3])
  }

  lemma {:induction false} PrefixOfConcat(a: string, b: string, j: nat)
    requires AllDigits(a) && AllDigits(b) && j <= |b|
    ensures AllDigits(a + b)
    ensures HexPrefix(a + b, |a| + j) == HexPrefix(a, |a|) * Power16(j) + HexPrefix(b, j)
  {
    if j == 0 {
      PrefixOfFirst(a, b, |a|);
    } else {
      PrefixOfConcat(a, b, j - 1);
      assert (a + b)[|a| + j - 1] == b[j - 1];
      Times16(HexPrefix(a, |a|), Power16(j - 1));
    }
  }

  lemma Times16(p: nat, q: nat)
    ensures p * (16 * q) == 16 * (p * q)
  {
  }

  lemma {:induction false} PrefixOfFirst(a: string, b: string, i: nat)
    requires AllDigits(a) && AllDigits(b) && i <= |a|
    ensures AllDigits(a + b) && HexPrefix(a + b, i) == HexPrefix(a, i)
  {
    if i > 0 {
      PrefixOfFirst(a, b, i - 1);
      assert (a + b)[i - 1] == a[i - 1];
    }
  }

  function Power16(j: nat): nat {
    if j == 0 then 1 else 16 * Power16(j - 1)
  }

  lemma SixteenDigits(value: string)
    requires |value| == 16 && AllDigits(value)
    ensures HexValue(value)
         == 0x1000000000000 * Word(value, 0) + 0x100000000 * Word(value, 4) + 0x10000 * Word(value, 8) + Word(value, 12)
  {
    hide Word;
    FourDigits(value, 0);
    FourDigits(value, 4);
    FourDigits(value, 8);
    FourDigits(value, 12);
  }

  lemma Part0()
    ensures AllDigits(HEX0) && HexValue(HEX0) == 0x894B645E89E1535B
  {
    SixteenDigits(HEX0);
  }

  lemma Part1()
    ensures AllDigits(HEX1) && HexValue(HEX1) == 0xBDAD5B8B29065053
  {
    SixteenDigits(HEX1);
  }

  lemma Part2()
    ensures AllDigits(HEX2) && HexValue(HEX2) == 0x0801B18EBFBF5E8F
  {
    SixteenDigits(HEX2);
  }

  lemma Part3()
    ensures AllDigits(HEX3) && HexValue(HEX3) == 0xAB3C82872A3E9BB7
  {
    SixteenDigits(HEX3);
  }

  lemma Join(a: string, b: string)
    requires AllDigits(a) && AllDigits(b) && |b| == 16
    ensures AllDigits(a + b) && HexValue(a + b) == HexValue(a) * 0x10000000000000000 + HexValue(b)
  {
    PrefixOfConcat(a, b, 16);
    assert Power16(4) == 0x10000;
    assert Power16(8) == 0x100000000;
    assert Power16(12) == 0x1000000000000;
    assert Power16(16) == 0x10000000000000000;
  }

  /** The modulus is the number that its hexadecimal constant denotes. */
  lemma ModulusValue()
    ensures LeValue(N) == 0x894B645E89E1535BBDAD5B8B290650530801B18EBFBF5E8FAB3C82872A3E9BB7
  {
    hide HexValue;
    Part0();
    Part1();
    Part2();
    Part3();
    Join(HEX0, HEX1);
    Join(HEX0 + HEX1, HEX2);
    Join(HEX0 + HEX1 + HEX2, HEX3);
    HexBytesValue(N_HEX);
  }

  // ---------- powers of the generator ----------

  /** No power of 7 is a multiple of a number greater than 1 that is 4 modulo 7. */
  lemma {:induction false} PowerIsNoMultiple(e: nat, k: int, n: nat)
    requires n > 1 && n % 7 == 4
    ensures Pow(7, e) != k * n
    decreases e
  {
    if e == 0 {
      MultipleGrows(n, k);
    } else if Pow(7, e) == k * n {
      var m := n / 7;
      assert k * n == 7 * (k * m) + 4 * k;
      var j := k / 7;
      assert k == 7 * j;
      assert k * n == 7 * (j * n);
      PowerIsNoMultiple(e - 1, j, n);
      assert false;
    }
  }

  /** The public key of a client that follows the protocol is never a multiple of the modulus. */
  lemma PublicKeyIsNotZero(a: nat)
    ensures PublicA(Generator(), a, Modulus()) != 0
  {
    ModulusValue();
    var n := Modulus();
    assert Generator() == 7;
    var p := Pow(7, a);
    PowerIsNoMultiple(a, p / n, n);
    assert p == n * (p / n) + p % n;
  }
}
