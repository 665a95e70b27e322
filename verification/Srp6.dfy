/** SRP-6 on the server, against what the documents describe. */
module SecureRemotePassword {
  import opened Wrappers
  import opened Arithmetic
  import opened Bytes
  import opened ModularPower
  import opened InterleavedHash
  import opened SrpGroup
  import opened SrpStandard
  import opened SrpRefinement

  /** One server-side exchange: the hashed user name, the secret exponent, the verifier, the salt, the
      public key, and whether the exchange has been used up. */
  datatype Exchange = Exchange(I: Digest, b: nat, v: nat, s: bytes, B: EphemeralKey, used: bool)

  function CalculateB(b: nat, v: nat): EphemeralKey {
    LeBytes(PublicB(Generator(), b, v, Modulus()), EPHEMERAL_KEY_LENGTH)
  }

  function NewExchange(h: Hash, username: bytes, salt: bytes, verifier: bytes, random: bytes): Exchange {
    var b, v := LeValue(random), LeValue(verifier);
    Exchange(h(username), b, v, salt, CalculateB(b, v), false)
  }

  function Scrambler(h: Hash, A: bytes, B: bytes): nat {
    LeValue(h(A + B))
  }

  /** The client's evidence of section 3 of RFC 2945. */
  function Evidence(h: Hash, n: bytes, g: bytes, I: bytes, s: bytes, A: bytes, B: bytes, key: bytes): Digest {
    h(XorAll(h(n), h(g)) + I + s + A + B + key)
  }

  /** The server's evidence. */
  function SessionVerifier(h: Hash, A: bytes, M: bytes, key: bytes): Digest {
    h(A + M + key)
  }

  function ServerKey(h: Hash, e: Exchange, A: bytes): SessionKey {
    var S := ServerSecret(LeValue(A), e.v, Scrambler(h, A, e.B), e.b, Modulus());
    StandardKey(h, LeBytes(S, EPHEMERAL_KEY_LENGTH))
  }

  /** The session key if the client's key is not a multiple of the modulus and its evidence is right. */
  function Verify(h: Hash, e: Exchange, A: bytes, M: bytes): Option<SessionKey> {
    if LeValue(A) % Modulus() == 0 then None
    else
      var key := ServerKey(h, e, A);
      if Evidence(h, N, G, e.I, e.s, A, e.B, key) == M then Some(key) else None
  }

  class Srp6 {
    const I: Digest
    const b: nat
    const v: nat
    const s: bytes
    const B: EphemeralKey
    var used: bool

    ghost function Now(): Exchange
      reads this
    {
      Exchange(I, b, v, s, B, used)
    }

    constructor (h: Hash, username: bytes, salt: bytes, verifier: bytes, random: bytes)
      ensures Now() == NewExchange(h, username, salt, verifier, random)
    {
      I := h(username);
      b := LeValue(random);
      v := LeValue(verifier);
      s := salt;
      B := CalculateB(LeValue(random), LeValue(verifier));
      used := false;
    }

    /** Single use, as the code asserts. */
    method VerifyChallenge(h: Hash, A: EphemeralKey, M: Digest) returns (key: Option<SessionKey>)
      requires !used
      modifies this`used
      ensures Now() == old(Now()).(used := true)
      ensures key == Verify(h, old(Now()), A, M)
    {
      used := true;
      var a := LeValue(A);
      if a % Modulus() == 0 {
        return None;
      }
      var u := LeValue(h(A + B));
      var secret := LeBytes(ModExp(a * ModExp(v, u, Modulus()), b, Modulus()), EPHEMERAL_KEY_LENGTH);
      var S := new byte[EPHEMERAL_KEY_LENGTH](i requires 0 <= i < EPHEMERAL_KEY_LENGTH => secret[i]);
      assert S[..] == secret;
      var derived := Sha1InterLeave(h, S);
      var nHash := h(N);
      var gHash := h(G);
      var ngHash := XorAll(nHash, gHash);
      var m := h(ngHash + I + s + A + B + derived[..]);
      if m == M {
        return Some(derived[..]);
      }
      key := None;
    }
  }

  // ---------- the server computes what the documents describe ----------

  lemma KeysJoined(A: EphemeralKey, B: EphemeralKey)
    ensures A + B == BothKeys(A, B)
  {
  }

  /** The server's key is the key of the exchange. */
  lemma ServerKeyIs(h: Hash, e: Exchange, A: EphemeralKey)
    ensures ServerKey(h, e, A) == ServerKeyOf(h, e.v, e.b, A, e.B)
  {
    hide StandardKey, KeyOf, ServerSecret, ServerPremaster;
    KeysJoined(A, e.B);
    NumberIs(A);
    NumberIs(h(BothKeys(A, e.B)));
    var u := Scrambler(h, A, e.B);
    ServerPremasterIs(Number(A), e.v, u, e.b);
    ThirtyTwoIs(ServerSecret(LeValue(A), e.v, u, e.b, Modulus()));
    KeyOfIs(h, ThirtyTwo(ServerPremaster(Number(A), e.v, u, e.b)));
  }

  lemma XorIs(a: Digest, b: Digest)
    ensures forall i :: 0 <= i < 20 ==> XorAll(a, b)[i] == ExclusiveOr(a[i], b[i])
  {
  }

  lemma EvidenceIs(h: Hash, I: Digest, s: EphemeralKey, A: EphemeralKey, B: EphemeralKey, K: SessionKey)
    ensures Evidence(h, N, G, I, s, A, B, K) == h(EvidenceText(h(N), h(G), I, s, A, B, K))
  {
    hide XorAll, ExclusiveOr;
    XorIs(h(N), h(G));
    var text := XorAll(h(N), h(G)) + I + s + A + B + K;
    var t := EvidenceText(h(N), h(G), I, s, A, B, K);
    assert |text| == 176;
    assert forall i :: 0 <= i < 20 ==> text[i] == XorAll(h(N), h(G))[i];
    assert text == t;
  }

  lemma SessionVerifierIs(h: Hash, A: EphemeralKey, M: Digest, K: SessionKey)
    ensures SessionVerifier(h, A, M, K) == h(AnswerText(A, M, K))
  {
    assert A + M + K == AnswerText(A, M, K);
  }

  /** The server accepts exactly the evidence that the documents describe, for a key that is no multiple of the
      modulus, and then holds the key that they describe. */
  lemma VerifyIs(h: Hash, e: Exchange, A: EphemeralKey, M: Digest)
    requires |e.s| == 32
    ensures var K := ServerKeyOf(h, e.v, e.b, A, e.B);
            Verify(h, e, A, M)
            == if Number(A) % MODULUS != 0 && M == h(EvidenceText(h(N), h(G), e.I, e.s, A, e.B, K)) then Some(K) else None
  {
    hide ServerKey, ServerKeyOf, Evidence, EvidenceText;
    ModulusIs();
    NumberIs(A);
    ServerKeyIs(h, e, A);
    EvidenceIs(h, e.I, e.s, A, e.B, ServerKey(h, e, A));
  }

  /** A new exchange: the hash of the name, the numbers of the random bytes and of the stored verifier, the salt,
      and the public key that the documents describe. */
  lemma NewExchangeIs(h: Hash, username: bytes, salt: bytes, verifier: bytes, random: bytes)
    ensures var e := NewExchange(h, username, salt, verifier, random);
            && e.I == h(username) && e.b == Number(random) && e.v == Number(verifier) && e.s == salt && !e.used
            && e.B == ThirtyTwo(ServerPublic(e.b, e.v))
  {
    hide PublicB, ServerPublic;
    NumberIs(random);
    NumberIs(verifier);
    ServerPublicIs(LeValue(random), LeValue(verifier));
    ThirtyTwoIs(ServerPublic(LeValue(random), LeValue(verifier)));
  }

  lemma KeyFits(r: nat)
    requires r < MODULUS
    ensures Number(ThirtyTwo(r)) == r
  {
    ModulusIs();
    ThirtyTwoIs(r);
    LeRoundTrip(r, EPHEMERAL_KEY_LENGTH);
    NumberIs(ThirtyTwo(r));
  }

  /** The secrets of the documents agree. */
  lemma PremastersAgree(x: nat, a: nat, b: nat, u: nat)
    ensures var v := Raise(7, x, MODULUS);
            ServerPremaster(Raise(7, a, MODULUS), v, u, b) == ClientPremaster(7, MODULUS, ServerPublic(b, v), x, a, u)
  {
    hide Raise, ServerPremaster, ClientPremaster, ServerPublic, ServerSecret, ClientSecret;
    var g, n := Generator(), Modulus();
    ModulusIs();
    RaiseIs(7, x, MODULUS);
    RaiseIs(7, a, MODULUS);
    var v := Raise(7, x, MODULUS);
    ServerPublicIs(b, v);
    ServerPremasterIs(Raise(7, a, MODULUS), v, u, b);
    ClientPremasterIs(7, MODULUS, ServerPublic(b, v), x, a, u);
    SecretsAgree(g, n, a, b, x, u);
  }

  lemma HonestKeyIsNotZero(a: nat)
    ensures Raise(7, a, MODULUS) % MODULUS != 0
  {
    hide Raise;
    ModulusIs();
    RaiseIs(7, a, MODULUS);
    PublicKeyIsNotZero(a);
    var A := Raise(7, a, MODULUS);
    ModUnique(A, MODULUS, 0, A);
  }

  /** A client that knows the password and computes as the documents describe is always accepted, and both sides
      hold the same session key: for every hash function, user name, salt, password exponent and pair of
      secret exponents. */
  lemma HonestClientAccepted(h: Hash, username: bytes, salt: EphemeralKey, random: bytes, x: nat, a: nat)
    ensures Number(N) > 0
    ensures var e := NewExchange(h, username, salt, StoredVerifier(x), random);
            var c := RunClient(h, username, x, a, Hello(e.B, G, N, salt));
            Verify(h, e, c.A, c.M) == Some(c.key)
  {
    hide KeyOf, EvidenceText, Raise, ServerPremaster, ClientPremaster, ServerPublic, Verify, NewExchange, ThirtyTwo, Number;
    ModulusIs();
    NumberIs(N);
    NumberIs(G);
    NewExchangeIs(h, username, salt, StoredVerifier(x), random);
    var e := NewExchange(h, username, salt, StoredVerifier(x), random);
    var c := RunClient(h, username, x, a, Hello(e.B, G, N, salt));
    KeyFits(Raise(7, x, MODULUS));
    KeyFits(Raise(7, a, MODULUS));
    PublicIsReduced(e.b, e.v);
    KeyFits(ServerPublic(e.b, e.v));
    PremastersAgree(x, a, e.b, Number(h(BothKeys(c.A, e.B))));
    HonestKeyIsNotZero(a);
    VerifyIs(h, e, c.A, c.M);
  }

  lemma PublicIsReduced(b: nat, v: nat)
    ensures ServerPublic(b, v) < MODULUS
  {
  }
}
