/** SRP-6 as its documents describe it, by positions in byte strings and with numbers written out: sections 3 and
    3.1 of RFC 2945, and sections 2.5.3, 2.5.4 and 2.6 of RFC 5054 with 3 in place of k.  Nothing here uses the
    server's functions; only the types of byte strings are shared. */
module SrpStandard {
  import opened Bytes
  import opened InterleavedHash

  // ---------- numbers ----------

  function Weight(i: nat): (w: nat)
    ensures w >= 1
  {
    if i == 0 then 1 else Weight(i - 1) * 256
  }

  /** The number of a byte string, least significant byte first. */
  function Number(bs: bytes): nat {
    if bs == [] then 0 else Number(bs[..|bs| - 1]) + bs[|bs| - 1] * Weight(|bs| - 1)
  }

  function ThirtyTwo(n: nat): (bs: bytes)
    ensures |bs| == 32
  {
    seq(32, i requires 0 <= i < 32 => n / Weight(i) % 256)
  }

  /** b^e mod n by squaring. */
  function Raise(b: int, e: nat, n: nat): (r: nat)
    requires n > 0
    ensures r < n
    decreases e
  {
    if e == 0 then 1 % n
    else if e % 2 == 0 then Raise(b * b % n, e / 2, n)
    else b * Raise(b * b % n, e / 2, n) % n
  }

  // ---------- section 3.1 of RFC 2945 ----------

  /** The position of the first byte that is not zero. */
  function FirstNonZero(S: bytes, i: nat): (z: nat)
    requires i <= |S|
    ensures i <= z <= |S|
    decreases |S| - i
  {
    if i < |S| && S[i] == 0 then FirstNonZero(S, i + 1) else i
  }

  /** Every other byte from a position on, so many of them. */
  function EveryOther(S: bytes, from: nat, count: nat): (t: bytes)
    requires count == 0 || from + 2 * (count - 1) < |S|
    ensures |t| == count
  {
    seq(count, i requires 0 <= i < count => S[from + 2 * i])
  }

  /** The 40-byte key of a 32-byte secret. */
  function KeyOf(h: Hash, S: bytes): (K: bytes)
    requires |S| == 32
    ensures |K| == 40
  {
    var z := FirstNonZero(S, 0);
    var from := if z % 2 == 0 then z else z + 1;
    var even, odd := h(EveryOther(S, from, (32 - from) / 2)), h(EveryOther(S, from + 1, (32 - from) / 2));
    seq(40, i requires 0 <= i < 40 => if i % 2 == 0 then even[i / 2] else odd[i / 2])
  }

  // ---------- section 3 of RFC 2945 ----------

  function ExclusiveOr(a: byte, b: byte): byte {
    ((a as bv8) ^ (b as bv8)) as int
  }

  /** What the client hashes as its evidence: H(N) xor H(g), H(U), s, A, B and K, one after the other. */
  function EvidenceText(hn: Digest, hg: Digest, hu: Digest, s: bytes, A: bytes, B: bytes, K: bytes): (t: bytes)
    requires |s| == 32 && |A| == 32 && |B| == 32 && |K| == 40
    ensures |t| == 176
  {
    seq(176, i requires 0 <= i < 176 =>
      if i < 20 then ExclusiveOr(hn[i], hg[i])
      else if i < 40 then hu[i - 20]
      else if i < 72 then s[i - 40]
      else if i < 104 then A[i - 72]
      else if i < 136 then B[i - 104]
      else K[i - 136])
  }

  /** What the server hashes as its evidence: A, M and K. */
  function AnswerText(A: bytes, M: Digest, K: bytes): (t: bytes)
    requires |A| == 32 && |K| == 40
    ensures |t| == 92
  {
    seq(92, i requires 0 <= i < 92 => if i < 32 then A[i] else if i < 52 then M[i - 32] else K[i - 52])
  }

  // ---------- sections 2.5 and 2.6 of RFC 5054 ----------

  function BothKeys(A: bytes, B: bytes): (t: bytes)
    requires |A| == 32 && |B| == 32
    ensures |t| == 64
  {
    seq(64, i requires 0 <= i < 64 => if i < 32 then A[i] else B[i - 32])
  }

  function ServerPublic(b: nat, v: nat): nat {
    (3 * v + Raise(7, b, MODULUS)) % MODULUS
  }

  function ServerPremaster(A: nat, v: nat, u: nat, b: nat): nat {
    Raise(A * Raise(v, u, MODULUS), b, MODULUS)
  }

  function ClientPremaster(g: nat, n: nat, B: nat, x: nat, a: nat, u: nat): nat
    requires n > 0
  {
    Raise(B - 3 * Raise(g, x, n), a + u * x, n)
  }

  /** The group of the server: generator 7 and this modulus. */
  const MODULUS: nat := 0x894B645E89E1535BBDAD5B8B290650530801B18EBFBF5E8FAB3C82872A3E9BB7

  /** The key of the exchange, on the server's side. */
  function ServerKeyOf(h: Hash, v: nat, b: nat, A: bytes, B: bytes): (K: bytes)
    requires |A| == 32 && |B| == 32
    ensures |K| == 40
  {
    KeyOf(h, ThirtyTwo(ServerPremaster(Number(A), v, Number(h(BothKeys(A, B))), b)))
  }

  // ---------- the client ----------

  /** What the server tells the client. */
  datatype Hello = Hello(B: EphemeralKey, g: bytes, n: EphemeralKey, s: EphemeralKey)

  /** What the client ends up with: its public key, its session key and its evidence. */
  datatype ClientSide = ClientSide(A: EphemeralKey, key: SessionKey, M: Digest)

  /** The client picks a; x is derived from salt and password.  It uses only what the server sent. */
  function RunClient(h: Hash, username: bytes, x: nat, a: nat, hello: Hello): ClientSide
    requires Number(hello.n) > 0
  {
    var g, n := Number(hello.g), Number(hello.n);
    var A := ThirtyTwo(Raise(g, a, n));
    var u := Number(h(BothKeys(A, hello.B)));
    var K := KeyOf(h, ThirtyTwo(ClientPremaster(g, n, Number(hello.B), x, a, u)));
    ClientSide(A, K, h(EvidenceText(h(hello.n), h(hello.g), h(username), hello.s, A, hello.B, K)))
  }

  /** The verifier that registration stores for x. */
  function StoredVerifier(x: nat): (v: bytes)
    ensures |v| == 32
  {
    ThirtyTwo(Raise(7, x, MODULUS))
  }
}
