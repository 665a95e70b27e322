/** Parsing of the hexadecimal constant for the group. */
module HexString {
  import opened Bytes

  predicate IsDigit(c: char) {
    '0' <= c <= '9' || 'a' <= c <= 'f' || 'A' <= c <= 'F'
  }

  function DigitValue(c: char): (v: nat)
    requires IsDigit(c)
    ensures v < 16
  {
    if c <= '9' then c as int - '0' as int
    else if c <= 'F' then c as int - 'A' as int + 10
    else c as int - 'a' as int + 10
  }

  predicate IsSpace(c: char) {
    c == ' ' || '\t' <= c <= '\r'
  }

  /** strtoul(…, 16) on two characters followed by the terminator, cut down to a byte: optional white
      space and sign, then as many digits as there are. */
  function StrToUl(c0: char, c1: char): byte {
    var low := if IsDigit(c1) then DigitValue(c1) else 0;
    if IsDigit(c0) then (if IsDigit(c1) then 16 * DigitValue(c0) + low else DigitValue(c0))
    else if IsSpace(c0) || c0 == '+' then low
    else if c0 == '-' then (256 - low) % 256
    else 0
  }

  /** The bytes of the string in the order of the characters. */
  function Pairs(value: string): (bs: bytes)
    requires |value| % 2 == 0
    ensures |bs| == |value| / 2
  {
    seq(|value| / 2, i requires 0 <= i < |value| / 2 => StrToUl(value[2 * i], value[2 * i + 1]))
  }

  function HexBytes(value: string, reverse: bool): (bs: bytes)
    requires |value| % 2 == 0
    ensures |bs| == |value| / 2
  {
    if reverse then Reversed(Pairs(value)) else Pairs(value)
  }

  predicate AllDigits(value: string) {
    forall i :: 0 <= i < |value| ==> IsDigit(value[i])
  }

  /** The number that the first i digits denote. */
  function HexPrefix(value: string, i: nat): nat
    requires i <= |value| && AllDigits(value)
  {
    if i == 0 then 0 else 16 * HexPrefix(value, i - 1) + DigitValue(value[i - 1])
  }

  /** The number a hexadecimal string denotes. */
  function HexValue(value: string): nat
    requires AllDigits(value)
  {
    HexPrefix(value, |value|)
  }

  method HexStringToByteArray(value: string, result: array<byte>, reverse: bool)
    requires |value| == 2 * result.Length
    modifies result
    ensures result[..] == HexBytes(value, reverse)
  {
    var start, operation, end := 0, 1, |value|;
    if reverse {
      start := |value| - 2;
      end := -2;
      operation := -1;
    }
    ghost var pairs := Pairs(value);
    var j := 0;
    var i := start;
    while i != end
      invariant 0 <= j <= result.Length
      invariant i == if reverse then |value| - 2 - 2 * j else 2 * j
      invariant forall k :: 0 <= k < j ==>
                  result[k] == pairs[if reverse then result.Length - 1 - k else k]
      decreases result.Length - j
    {
      assert pairs[i / 2] == StrToUl(value[i], value[i + 1]);
      result[j] := StrToUl(value[i], value[i + 1]);
      j := j + 1;
      i := i + 2 * operation;
    }
    forall k | 0 <= k < result.Length ensures result[..][k] == HexBytes(value, reverse)[k] {
      if reverse {
        ReversedAt(pairs, k);
      }
    }
  }

  lemma {:induction false} PairsValue(value: string, k: nat)
    requires |value| % 2 == 0 && AllDigits(value) && 2 * k <= |value|
    ensures BeValue(Pairs(value)[..k]) == HexPrefix(value, 2 * k)
  {
    if k > 0 {
      PairsValue(value, k - 1);
      var bs := Pairs(value)[..k];
      assert bs[..k - 1] == Pairs(value)[..k - 1];
      assert HexPrefix(value, 2 * k - 1) == 16 * HexPrefix(value, 2 * k - 2) + DigitValue(value[2 * k - 2]);
    }
  }

  /** The bytes of a hexadecimal string are its big-endian number, reversed its little-endian one. */
  lemma HexBytesValue(value: string)
    requires |value| % 2 == 0 && AllDigits(value)
    ensures BeValue(HexBytes(value, false)) == HexValue(value)
    ensures LeValue(HexBytes(value, true)) == HexValue(value)
  {
    var bs := Pairs(value);
    PairsValue(value, |bs|);
    assert bs[..|bs|] == bs;
    BeIsLeReversed(bs);
  }

  /** Pairs as strtoul reads them: both digits in either case, a digit and something else, a space or a sign and a
      digit, and nothing that is a number. */
  lemma PairsAsRead()
    ensures StrToUl('a', 'F') == 0xAF && StrToUl('F', 'a') == 0xFA && StrToUl('0', '9') == 9 && StrToUl('9', '0') == 0x90
    ensures StrToUl('7', 'x') == 7 && StrToUl(' ', '7') == 7 && StrToUl('+', 'b') == 11 && StrToUl('-', '1') == 0xFF
    ensures StrToUl('x', '7') == 0 && StrToUl('G', 'g') == 0 && StrToUl('-', '-') == 0
    ensures HexBytes("0a9F", false) == [0x0A, 0x9F] && HexBytes("0a9F", true) == [0x9F, 0x0A]
  {
    assert Pairs("0a9F") == [StrToUl('0', 'a'), StrToUl('9', 'F')];
    ReversedAt([0x0A, 0x9F], 0);
    ReversedAt([0x0A, 0x9F], 1);
  }
}
