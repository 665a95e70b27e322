/** The interleaved hash that turns the premaster secret into the session key.  SHA-1 is an
    arbitrary function from byte strings to 20 bytes. */
module InterleavedHash {
  import opened Bytes

  const DIGEST_LENGTH := 20
  const EPHEMERAL_KEY_LENGTH := 32
  const SESSION_KEY_LENGTH := 40

  type Digest = d: bytes | |d| == DIGEST_LENGTH witness seq(DIGEST_LENGTH, _ => 0)
  type Hash = bytes -> Digest
  type EphemeralKey = k: bytes | |k| == EPHEMERAL_KEY_LENGTH witness seq(EPHEMERAL_KEY_LENGTH, _ => 0)
  type SessionKey = k: bytes | |k| == SESSION_KEY_LENGTH witness seq(SESSION_KEY_LENGTH, _ => 0)

  // ---------- section 3.1 of RFC 2945 ----------

  function StripZeros(s: bytes): bytes {
    if s != [] && s[0] == 0 then StripZeros(s[1..]) else s
  }

  function Evens(s: bytes): bytes {
    seq((|s| + 1) / 2, i requires 0 <= i < (|s| + 1) / 2 => s[2 * i])
  }

  function Odds(s: bytes): bytes {
    seq(|s| / 2, i requires 0 <= i < |s| / 2 => s[2 * i + 1])
  }

  function Interleave(a: Digest, b: Digest): SessionKey {
    seq(SESSION_KEY_LENGTH, i requires 0 <= i < SESSION_KEY_LENGTH => if i % 2 == 0 then a[i / 2] else b[i / 2])
  }

  /** Strip the leading zeros, make the length even, then split, hash and interleave. */
  function StandardKey(h: Hash, s: bytes): SessionKey {
    var stripped := StripZeros(s);
    var t := if |stripped| % 2 == 1 then stripped[1..] else stripped;
    Interleave(h(Evens(t)), h(Odds(t)))
  }

  // ---------- the code splits first and skips afterwards ----------

  lemma {:induction false} StripSkips(s: bytes, p: nat)
    requires p <= |s| && (forall k :: 0 <= k < p ==> s[k] == 0) && (p < |s| ==> s[p] != 0)
    ensures StripZeros(s) == s[p..]
  {
    if p > 0 {
      StripSkips(s[1..], p - 1);
      assert s[1..][p - 1..] == s[p..];
    }
  }

  /** Dropping an even number of bytes and splitting is splitting and dropping half of it from each part. */
  lemma SplitThenSkip(s: bytes, q: nat)
    requires |s| % 2 == 0 && 2 * q <= |s|
    ensures Evens(s[2 * q..]) == Evens(s)[q..]
    ensures Odds(s[2 * q..]) == Odds(s)[q..]
  {
  }

  /** With p leading zeros, the standard keeps the bytes from p rounded up to an even position. */
  lemma SkipIsStandard(h: Hash, s: bytes, p: nat)
    requires |s| % 2 == 0
    requires p <= |s| && (forall k :: 0 <= k < p ==> s[k] == 0) && (p < |s| ==> s[p] != 0)
    ensures (p + p % 2) / 2 <= |s| / 2
    ensures var q := (p + p % 2) / 2;
            StandardKey(h, s) == Interleave(h(Evens(s)[q..]), h(Odds(s)[q..]))
  {
    StripSkips(s, p);
    var q := (p + p % 2) / 2;
    SplitThenSkip(s, q);
    if p % 2 == 1 {
      assert s[p..][1..] == s[2 * q..];
    }
  }

  /** Two bytes at a time into two buffers. */
  method Split(s: array<byte>) returns (buffer0: array<byte>, buffer1: array<byte>)
    requires s.Length == EPHEMERAL_KEY_LENGTH
    ensures fresh(buffer0) && fresh(buffer1)
    ensures buffer0[..] == Evens(s[..]) && buffer1[..] == Odds(s[..])
  {
    var half := EPHEMERAL_KEY_LENGTH / 2;
    buffer0 := new byte[half];
    buffer1 := new byte[half];
    for i := 0 to half
      invariant forall k :: 0 <= k < i ==> buffer0[k] == s[2 * k] && buffer1[k] == s[2 * k + 1]
    {
      buffer0[i] := s[2 * i];
      buffer1[i] := s[2 * i + 1];
    }
  }

  /** Two bytes at a time out of two digests. */
  method Merge(hash0: Digest, hash1: Digest) returns (key: array<byte>)
    ensures fresh(key) && key[..] == Interleave(hash0, hash1)
  {
    key := new byte[SESSION_KEY_LENGTH];
    for i := 0 to DIGEST_LENGTH
      invariant forall k :: 0 <= k < 2 * i ==> key[k] == if k % 2 == 0 then hash0[k / 2] else hash1[k / 2]
    {
      key[2 * i] := hash0[i];
      key[2 * i + 1] := hash1[i];
    }
  }

  /** Splits into two halves, skips the leading zeros in both, hashes and interleaves. */
  method Sha1InterLeave(h: Hash, s: array<byte>) returns (key: array<byte>)
    requires s.Length == EPHEMERAL_KEY_LENGTH
    ensures fresh(key) && key[..] == StandardKey(h, s[..])
  {
    hide StandardKey, Interleave, Evens, Odds;
    var buffer0, buffer1 := Split(s);
    assert |Evens(s[..])| == |Odds(s[..])| == EPHEMERAL_KEY_LENGTH / 2 by { HalfLengths(s[..]); }
    assert buffer0.Length == |buffer0[..]| && buffer1.Length == |buffer1[..]|;
    var p := 0;
    while p < EPHEMERAL_KEY_LENGTH && s[p] == 0
      invariant p <= EPHEMERAL_KEY_LENGTH
      invariant forall k :: 0 <= k < p ==> s[k] == 0
    {
      p := p + 1;
    }
    SkipIsStandard(h, s[..], p);
    if p % 2 == 1 {
      p := p + 1;
    }
    p := p / 2;
    var hash0 := h(buffer0[p..]);
    var hash1 := h(buffer1[p..]);
    assert buffer0[p..] == buffer0[..][p..] && buffer1[p..] == buffer1[..][p..];
    key := Merge(hash0, hash1);
  }

  lemma HalfLengths(s: bytes)
    requires |s| % 2 == 0
    ensures |Evens(s)| == |Odds(s)| == |s| / 2
  {
  }

  /** The two boundary cases of the skip: all zeros, and only the last byte set. */
  lemma BoundaryCases(h: Hash, s: bytes)
    requires |s| == EPHEMERAL_KEY_LENGTH && forall k :: 0 <= k < EPHEMERAL_KEY_LENGTH - 1 ==> s[k] == 0
    ensures StandardKey(h, s) == Interleave(h([]), h([]))
  {
    var p := if s[EPHEMERAL_KEY_LENGTH - 1] == 0 then EPHEMERAL_KEY_LENGTH else EPHEMERAL_KEY_LENGTH - 1;
    SkipIsStandard(h, s, p);
    assert Evens(s)[16..] == [] && Odds(s)[16..] == [];
  }
}
