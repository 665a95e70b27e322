/** What the authentication session does with one complete frame, and what that means for a client.
     The database is a set of plain maps; the random exponents are a parameter. */
module Authentication {
  import opened Wrappers
  import opened Bytes
  import opened InterleavedHash
  import opened SrpGroup
  import opened SrpRefinement
  import opened ClientWire
  import opened SrpStandard
  import opened SecureRemotePassword
  import opened RealmList
  import opened RealmClient
  import opened RealmMeaning

  const CMD_CHALLENGE: byte := 0x00
  const CMD_PROOF: byte := 0x01

  const LOGIN_OK: byte := 0x00
  const LOGIN_UNKNOWN_ACCOUNT: byte := 0x04
  const LOGIN_VERSION_INVALID: byte := 0x09

  /** Offsets in the packed challenge: length field, client build, and the name with its length. */
  const CHALLENGE_HEADER := 4
  const BUILD_OFFSET := 11
  const NAME_LENGTH_OFFSET := 33
  const NAME_OFFSET := 34
  const MAX_CHALLENGE := 51

  const PROOF_SIZE := 75
  const REALMLIST_SIZE := 5

  const MAX_PRE_BC_BUILD := 6141

  const VERSION_CHALLENGE: bytes :=
    [0xBA, 0xA3, 0x1E, 0x99, 0xA0, 0x0B, 0x21, 0x57, 0xFC, 0x37, 0x3F, 0xB3, 0x69, 0xCD, 0xD2, 0xF1]

  datatype Account = Account(id: nat, username: bytes, salt: EphemeralKey, verifier: EphemeralKey)

  /** Everything outside the session: accounts by the name asked for, builds, realms in the order of
      their ids, character counts by account and realm, and the random bytes of each exchange. */
  datatype Env = Env(
    hash: Hash,
    accounts: map<bytes, Account>,
    builds: seq<BuildInfo>,
    realms: seq<Realm>,
    characters: map<nat, map<nat, byte>>,
    randoms: seq<EphemeralKey>)

  /** The fields of the session that outlive a frame; `exchanges` counts the exchanges begun. */
  datatype Auth = Auth(
    build: nat, expansion: Expansion, exchange: Option<Exchange>, sessionKey: bytes, accountId: nat, exchanges: nat)

  function InitialAuth(): Auth {
    Auth(0, Invalid, None, seq(SESSION_KEY_LENGTH, _ => 0), 0, 0)
  }

  /** Reject closes the connection.  Undefined is a proof without an unused exchange: the code asserts
      or dereferences there, and nothing is claimed about what follows. */
  datatype Handled = Accept(auth: Auth, reply: bytes) | Reject | Undefined

  function RandomFor(env: Env, n: nat): bytes {
    if n < |env.randoms| then env.randoms[n] else []
  }

  function ExpansionOf(builds: seq<BuildInfo>, build: nat): Expansion {
    if FindBuild(builds, build).None? then Invalid
    else if build <= MAX_PRE_BC_BUILD then PreBc
    else PostBc
  }

  // ---------- challenge ----------

  /** The condition of the handler, in 64-bit unsigned arithmetic as written: the length field less 30
      must be the length of the name. */
  predicate LengthsMatch(length: nat, nameLength: byte) {
    (length - 30) % 0x1_0000_0000_0000_0000 == nameLength
  }

  lemma LengthsMatchMeans(length: nat, nameLength: byte)
    requires length < 65536
    ensures LengthsMatch(length, nameLength) <==> length == nameLength + 30
  {
  }

  /** A challenge whose two lengths agree lies completely inside its frame. */
  predicate ChallengeOk(frame: bytes) {
    |frame| > NAME_LENGTH_OFFSET && LengthsMatch(LeValue(frame[2..4]), frame[NAME_LENGTH_OFFSET])
    && |frame| == CHALLENGE_HEADER + LeValue(frame[2..4])
  }

  function NameIn(frame: bytes): bytes
    requires ChallengeOk(frame)
  {
    ChallengeSpans(frame);
    frame[NAME_OFFSET..NAME_OFFSET + frame[NAME_LENGTH_OFFSET]]
  }

  lemma ChallengeSpans(frame: bytes)
    requires ChallengeOk(frame)
    ensures |frame| == NAME_OFFSET + frame[NAME_LENGTH_OFFSET]
  {
    TwoBytesValue(frame[2..4]);
    LengthsMatchMeans(LeValue(frame[2..4]), frame[NAME_LENGTH_OFFSET]);
  }

  function ShortReply(result: byte): bytes {
    [CMD_CHALLENGE, 0x00, result]
  }

  function HelloReply(e: Exchange): bytes {
    [CMD_CHALLENGE, 0x00, LOGIN_OK] + e.B + [1] + G + [32] + N + e.s + VERSION_CHALLENGE + [0x00]
  }

  function HandleChallenge(env: Env, st: Auth, frame: bytes): Handled {
    if !ChallengeOk(frame) then Reject
    else
      var build := LeValue(frame[BUILD_OFFSET..BUILD_OFFSET + 2]);
      var st1 := st.(build := build, expansion := ExpansionOf(env.builds, build));
      if FindBuild(env.builds, build).None? then Accept(st1, ShortReply(LOGIN_VERSION_INVALID))
      else if NameIn(frame) !in env.accounts then Accept(st1, ShortReply(LOGIN_UNKNOWN_ACCOUNT))
      else
        var account := env.accounts[NameIn(frame)];
        var e := NewExchange(env.hash, account.username, account.salt, account.verifier, RandomFor(env, st.exchanges));
        Accept(st1.(exchange := Some(e), accountId := account.id, exchanges := st.exchanges + 1), HelloReply(e))
  }

  // ---------- proof ----------

  function ProofA(frame: bytes): EphemeralKey
    requires |frame| == PROOF_SIZE
  {
    frame[1..33]
  }

  function ProofM(frame: bytes): Digest
    requires |frame| == PROOF_SIZE
  {
    frame[33..53]
  }

  predicate TokenSent(frame: bytes)
    requires |frame| == PROOF_SIZE
  {
    frame[74] / 4 % 2 == 1
  }

  function FailedProof(): bytes {
    [CMD_PROOF, LOGIN_UNKNOWN_ACCOUNT, 0x00, 0x00]
  }

  /** The packed reply of either dialect. */
  function ProofReply(post: bool, serverProof: Digest): bytes {
    [CMD_PROOF, 0x00] + serverProof
    + (if post then LeBytes(0x00800000, 4) + LeBytes(0, 4) + LeBytes(0, 2) else LeBytes(0, 4))
  }

  function HandleProof(env: Env, st: Auth, frame: bytes): Handled
    requires |frame| == PROOF_SIZE
  {
    if st.expansion == Invalid then Reject
    else if st.exchange.None? || st.exchange.value.used then Undefined
    else
      var e := st.exchange.value;
      var A, M := ProofA(frame), ProofM(frame);
      var st1 := st.(exchange := Some(e.(used := true)));
      match Verify(env.hash, e, A, M)
      case None => Accept(st1, FailedProof())
      case Some(key) =>
        var st2 := st1.(sessionKey := key);
        if TokenSent(frame) then Accept(st2, FailedProof())
        else Accept(st2, ProofReply(st.expansion == PostBc, SessionVerifier(env.hash, A, M, key)))
  }

  // ---------- realm list ----------

  function ViewOf(env: Env, st: Auth): View {
    View(env.builds, st.build, st.expansion,
         if st.accountId in env.characters then env.characters[st.accountId] else map[])
  }

  function HandleRealmList(env: Env, st: Auth): Handled {
    Accept(st, Packet(st.expansion == PostBc, Entries(env.realms, ViewOf(env, st))))
  }

  predicate Known(command: byte) {
    command == CMD_CHALLENGE || command == CMD_PROOF || command == CMD_REALMLIST
  }

  /** Dispatch on a complete frame. */
  function Handle(env: Env, st: Auth, frame: bytes): Handled {
    if frame == [] then Reject
    else if frame[0] == CMD_CHALLENGE then HandleChallenge(env, st, frame)
    else if frame[0] == CMD_PROOF && |frame| == PROOF_SIZE then HandleProof(env, st, frame)
    else if frame[0] == CMD_REALMLIST then HandleRealmList(env, st)
    else Reject
  }

  /** No handler sends an empty packet. */
  lemma RepliesAreNotEmpty(env: Env, st: Auth, frame: bytes)
    requires Handle(env, st, frame).Accept?
    ensures Handle(env, st, frame).reply != []
  {
    hide LeBytes, Entries, Verify, SessionVerifier, NewExchange, Body;
  }

  // ---------- challenges, from the client's side ----------

  lemma GroupOnTheWire()
    ensures G == [7] && N == ThirtyTwo(MODULUS) && Number(N) == MODULUS && Number(G) == 7
  {
    hide ThirtyTwo, Number;
    ModulusIs();
    LeBytesOfValue(N);
    ThirtyTwoIs(MODULUS);
    NumberIs(N);
    NumberIs(G);
  }

  /** The layout of the reply with an exchange. */
  lemma HelloRoundTrip(e: Exchange)
    requires |e.s| == EPHEMERAL_KEY_LENGTH
    ensures DecodeHello(HelloReply(e)) == Some(Hello(e.B, [7], ThirtyTwo(MODULUS), e.s))
    ensures HelloReply(e)[102..] == VERSION_SALT + [0]
  {
    hide ThirtyTwo, HelloReply, N, G, Number, DecodeHello;
    GroupOnTheWire();
    HelloParts(e);
    Decoded(HelloReply(e));
  }

  lemma Decoded(r: bytes)
    requires |r| == 119 && r[..3] == [0, 0, 0] && r[35] == 1 && r[37] == 32
    ensures DecodeHello(r) == Some(Hello(r[3..35], r[36..37], r[38..70], r[70..102]))
  {
    assert r[0] == r[..3][0] && r[1] == r[..3][1] && r[2] == r[..3][2];
  }

  lemma HelloParts(e: Exchange)
    requires |e.s| == EPHEMERAL_KEY_LENGTH && |G| == 1
    ensures var r := HelloReply(e);
            && |r| == 119 && r[..3] == [0, 0, 0] && r[35] == 1 && r[37] == 32
            && r[3..35] == e.B && r[36..37] == G && r[38..70] == N && r[70..102] == e.s
            && r[102..] == VERSION_SALT + [0]
  {
    hide N, G;
    var r := HelloReply(e);
    var front := [CMD_CHALLENGE, 0x00, LOGIN_OK] + e.B + [1] + G + [32];
    assert r == front + (N + e.s + (VERSION_CHALLENGE + [0x00]));
    assert front[3..35] == e.B && front[36..37] == G;
  }

  /** The lengths of a frame agree. */
  predicate Agreeing(frame: bytes) {
    && |frame| >= 34 && frame[2] as int + 256 * (frame[3] as int) == 30 + frame[33] as int
    && |frame| == 34 + frame[33] as int
  }

  lemma AgreeingIs(frame: bytes)
    ensures Agreeing(frame) <==> ChallengeOk(frame)
    ensures Agreeing(frame) ==>
              && NameIn(frame) == frame[34..]
              && LeValue(frame[BUILD_OFFSET..BUILD_OFFSET + 2]) == frame[11] as int + 256 * (frame[12] as int)
  {
    if |frame| > NAME_LENGTH_OFFSET {
      TwoBytesValue(frame[2..4]);
      TwoBytesValue(frame[BUILD_OFFSET..BUILD_OFFSET + 2]);
      LengthsMatchMeans(LeValue(frame[2..4]), frame[NAME_LENGTH_OFFSET]);
    }
  }

  ghost predicate BuildKnown(env: Env, build: nat) {
    exists b :: b in env.builds && b.build == build
  }

  lemma BuildKnownIs(env: Env, build: nat)
    ensures BuildKnown(env, build) <==> FindBuild(env.builds, build).Some?
  {
  }

  /** What an answered challenge leaves in the session and sends, for a known account. */
  ghost predicate Begun(env: Env, st: Auth, account: Account, st': Auth, reply: bytes) {
    && st'.accountId == account.id && st'.exchanges == st.exchanges + 1 && st'.sessionKey == st.sessionKey
    && st'.exchange.Some?
    && var e := st'.exchange.value;
       && e.I == env.hash(account.username) && e.s == account.salt && e.v == Number(account.verifier) && !e.used
       && (st.exchanges < |env.randoms| ==> e.b == Number(env.randoms[st.exchanges]))
       && e.B == ThirtyTwo(ServerPublic(e.b, e.v))
       && DecodeHello(reply) == Some(Hello(e.B, [7], ThirtyTwo(MODULUS), account.salt))
       && reply[102..] == VERSION_SALT + [0]
  }

  /** The verdict on a challenge, exactly.  It is answered if and only if its lengths agree.  An unknown build and
      an unknown account are answered with 9 and 4, and exchange and account stay; otherwise a new exchange
      begins for the account named in the frame. */
  lemma ChallengeVerdict(env: Env, st: Auth, frame: bytes)
    requires frame != [] && frame[0] == 0
    ensures var h := Handle(env, st, frame);
            && (Agreeing(frame) ==> h.Accept?) && (!Agreeing(frame) ==> h.Reject?)
            && (Agreeing(frame) ==>
                  var build, name := frame[11] as int + 256 * (frame[12] as int), frame[34..];
                  && h.auth.build == build
                  && h.auth.expansion == (if !BuildKnown(env, build) then Invalid else if build <= 6141 then PreBc else PostBc)
                  && (BuildKnown(env, build) && name in env.accounts ==>
                        Begun(env, st, env.accounts[name], h.auth, h.reply))
                  && (!(BuildKnown(env, build) && name in env.accounts) ==>
                        && h.auth == st.(build := build, expansion := h.auth.expansion)
                        && h.reply == [0, 0, if BuildKnown(env, build) then 4 else 9]))
  {
    hide HelloReply, NewExchange, ChallengeOk, LeValue, NameIn, DecodeHello, Number, ThirtyTwo, ServerPublic;
    AgreeingIs(frame);
    if Agreeing(frame) {
      var build := frame[11] as int + 256 * (frame[12] as int);
      BuildKnownIs(env, build);
      if frame[34..] in env.accounts {
        var account := env.accounts[frame[34..]];
        var random := RandomFor(env, st.exchanges);
        NewExchangeIs(env.hash, account.username, account.salt, account.verifier, random);
        HelloRoundTrip(NewExchange(env.hash, account.username, account.salt, account.verifier, random));
      }
    }
  }

  /** The packed challenge of a client is one whose lengths agree. */
  lemma ChallengeIsAgreeing(v: Visit)
    requires WellFormed(v)
    ensures var c := Challenge(v);
            Agreeing(c) && c[0] == 0 && c[11] as int + 256 * (c[12] as int) == v.build && c[34..] == v.name
  {
    var c := Challenge(v);
    assert c[..4] == [0, v.protocol, (30 + |v.name|) % 256, (30 + |v.name|) / 256];
    assert c[11] == v.build % 256 && c[12] == v.build / 256 && c[33] == |v.name|;
  }

  // ---------- proofs, from the client's side ----------

  lemma FourZeros()
    ensures LeBytes(0, 4) == [0, 0, 0, 0] && LeBytes(0, 2) == [0, 0] && LeBytes(0x00800000, 4) == [0, 0, 128, 0]
    ensures Number([0, 0, 0, 0]) == 0 && Number([0, 0]) == 0 && Number([0, 0, 128, 0]) == 0x00800000
  {
    assert LeBytes(0, 1) == [0];
    assert LeBytes(0, 3) == [0] + LeBytes(0, 2);
    assert LeBytes(0x8000, 3) == [0] + LeBytes(0x80, 2) && LeBytes(0x80, 2) == [0x80] + LeBytes(0, 1);
    LeRoundTrip(0, 4);
    LeRoundTrip(0, 2);
    LeRoundTrip(0x00800000, 4);
    assert Power256(4) == 0x100000000;
    NumberIs([0, 0, 0, 0]);
    NumberIs([0, 0]);
    NumberIs([0, 0, 128, 0]);
  }

  /** The layout of both replies with a server proof. */
  lemma ProofReplyDecodes(post: bool, proof: Digest)
    ensures DecodeProofReply(post, ProofReply(post, proof))
         == Some(ServerAnswer(proof, if post then Some(0x00800000) else None, 0, if post then Some(0) else None))
  {
    hide LeBytes, Number;
    FourZeros();
    var r := ProofReply(post, proof);
    assert r[2..22] == proof;
    if post {
      assert r[22..26] == [0, 0, 128, 0] && r[26..30] == [0, 0, 0, 0] && r[30..32] == [0, 0];
    } else {
      assert r[22..26] == [0, 0, 0, 0];
    }
  }

  /** The client's key is no multiple of the modulus and its evidence is the one that the documents describe. */
  predicate Proven(h: Hash, e: Exchange, A: EphemeralKey, M: Digest)
    requires |e.s| == 32
  {
    && Number(A) % MODULUS != 0
    && M == h(EvidenceText(h(ThirtyTwo(MODULUS)), h([7]), e.I, e.s, A, e.B, ServerKeyOf(h, e.v, e.b, A, e.B)))
  }

  /** The verdict on a proof, exactly.  The client reads the server's answer if and only if its key is not a
      multiple of the modulus, its evidence is right and the token bit is clear; the session key changes under
      the first two conditions, and the exchange is used up in any case. */
  lemma ProofVerdict(env: Env, st: Auth, frame: bytes)
    requires |frame| == 75 && frame[0] == 1
    requires st.expansion != Invalid && st.exchange.Some? && !st.exchange.value.used && |st.exchange.value.s| == 32
    ensures var e, h, post := st.exchange.value, Handle(env, st, frame), st.expansion == PostBc;
            var A: EphemeralKey, M: Digest := frame[1..33], frame[33..53];
            var K := ServerKeyOf(env.hash, e.v, e.b, A, e.B);
            && h.Accept?
            && h.auth == st.(exchange := Some(e.(used := true)), sessionKey := if Proven(env.hash, e, A, M) then K else st.sessionKey)
            && (Proven(env.hash, e, A, M) && frame[74] / 4 % 2 == 0 ==>
                  DecodeProofReply(post, h.reply) == Some(Expected(env.hash, post, A, M, K)))
            && (!(Proven(env.hash, e, A, M) && frame[74] / 4 % 2 == 0) ==> h.reply == [1, 4, 0, 0])
  {
    hide ServerKeyOf, Verify, SessionVerifier, EvidenceText, AnswerText, ProofReply, DecodeProofReply, ThirtyTwo, Number;
    var e := st.exchange.value;
    var A: EphemeralKey, M: Digest := frame[1..33], frame[33..53];
    GroupOnTheWire();
    VerifyIs(env.hash, e, A, M);
    var K := ServerKeyOf(env.hash, e.v, e.b, A, e.B);
    SessionVerifierIs(env.hash, A, M, K);
    ProofReplyDecodes(st.expansion == PostBc, SessionVerifier(env.hash, A, M, K));
  }

  /** A proof before any challenge for a known build closes the connection. */
  lemma ProofRefusedIff(env: Env, st: Auth, frame: bytes)
    requires |frame| == 75 && frame[0] == 1
    ensures Handle(env, st, frame).Reject? <==> st.expansion == Invalid
    ensures InitialAuth().expansion == Invalid
  {
    hide Verify, SessionVerifier, ProofReply;
  }

  /** The character counts of an account. */
  function CountsOf(env: Env, id: nat): map<nat, byte> {
    if id in env.characters then env.characters[id] else map[]
  }

  /** The verdict on a request for the realm list, exactly: it is answered in any session, and the reply tells the
      client about the realms it may see, with the counts of its account, if and only if length and count fit. */
  lemma RequestVerdict(env: Env, st: Auth, request: bytes)
    requires request != [] && request[0] == 16
    requires forall i :: 0 <= i < |env.realms| ==> CleanRealm(env.realms[i])
    ensures var h := Handle(env, st, request);
            && h.Accept? && h.auth == st
            && (Tells(h.reply, env.realms, env.builds, st.build, st.expansion, CountsOf(env, st.accountId))
                <==> Fitting(h.reply, env.realms, env.builds, st.build, st.expansion))
  {
    hide Packet, Entries, Tells, Fitting, CleanRealm;
    PacketTellsIff(env.realms, ViewOf(env, st));
  }

  /** When a frame reaches the assertion or the empty optional: it is a proof, the client's build is known,
      and there is no exchange or a used one. */
  lemma UndefinedIff(env: Env, st: Auth, frame: bytes)
    ensures Handle(env, st, frame).Undefined? <==>
              && |frame| == 75 && frame[0] == 1
              && st.expansion != Invalid && (st.exchange.None? || st.exchange.value.used)
  {
  }

  // ---------- the handshake ----------

  lemma HonestProof(h: Hash, account: Account, e: Exchange, x: nat, a: nat)
    requires account.verifier == StoredVerifier(x) && !e.used
    requires e.I == h(account.username) && e.s == account.salt && e.v == Number(account.verifier)
    requires e.B == ThirtyTwo(ServerPublic(e.b, e.v))
    ensures Number(ThirtyTwo(MODULUS)) > 0
    ensures var c := RunClient(h, account.username, x, a, Hello(e.B, [7], ThirtyTwo(MODULUS), account.salt));
            Proven(h, e, c.A, c.M) && c.key == ServerKeyOf(h, e.v, e.b, c.A, e.B)
  {
    hide ServerKeyOf, Verify, NewExchange, EvidenceText, RunClient, ThirtyTwo, Number, ServerPublic;
    GroupOnTheWire();
    ExponentBytes(e.b);
    var random := ExponentOf(e.b);
    HonestClientAccepted(h, account.username, account.salt, random, x, a);
    NewExchangeIs(h, account.username, account.salt, account.verifier, random);
    var c := RunClient(h, account.username, x, a, Hello(e.B, [7], ThirtyTwo(MODULUS), account.salt));
    VerifyIs(h, e, c.A, c.M);
  }

  /** Some bytes of every secret exponent. */
  function ExponentOf(b: nat): bytes {
    LeBytes(b, b)
  }

  lemma {:induction false} PowerExceeds(b: nat)
    ensures b < Power256(b)
  {
    if b > 0 {
      PowerExceeds(b - 1);
    }
  }

  lemma ExponentBytes(b: nat)
    ensures Number(ExponentOf(b)) == b
  {
    PowerExceeds(b);
    LeRoundTrip(b, b);
    NumberIs(ExponentOf(b));
  }

  /** Handshake completeness: for every account, password exponent x, secret exponents and challenge, a
      client that decodes the reply, computes its side from it as the documents describe and answers with the
      token bit clear is accepted; server and client then hold the same key, and the reply carries the proof
      that the server holds it. */
  lemma HandshakeCompletes(env: Env, st: Auth, v: Visit, x: nat, a: nat, crc: Digest, keys: byte, flags: byte)
    requires WellFormed(v) && BuildKnown(env, v.build) && v.name in env.accounts
    requires env.accounts[v.name].verifier == StoredVerifier(x)
    requires flags / 4 % 2 == 0
    ensures var username, post := env.accounts[v.name].username, v.build > 6141;
            var first := Handle(env, st, Challenge(v));
            && first.Accept?
            && DecodeHello(first.reply).Some?
            && Number(DecodeHello(first.reply).value.n) > 0
            && var c := RunClient(env.hash, username, x, a, DecodeHello(first.reply).value);
               var second := Handle(env, first.auth, ProofFrame(c, crc, keys, flags));
            && second.Accept?
            && second.auth.sessionKey == c.key
            && DecodeProofReply(post, second.reply) == Some(Expected(env.hash, post, c.A, c.M, c.key))
  {
    hide Handle, RunClient, HelloReply, DecodeHello, DecodeProofReply, ServerKeyOf, Expected, ThirtyTwo, Number, ServerPublic,
         Proven, Challenge, ProofFrame, ProofReply;
    ChallengeIsAgreeing(v);
    var account := env.accounts[v.name];
    ChallengeVerdict(env, st, Challenge(v));
    var first := Handle(env, st, Challenge(v));
    var e := first.auth.exchange.value;
    HonestProof(env.hash, account, e, x, a);
    var c := RunClient(env.hash, account.username, x, a, DecodeHello(first.reply).value);
    ProofParts(c, crc, keys, flags);
    ProofVerdict(env, first.auth, ProofFrame(c, crc, keys, flags));
  }

  lemma ProofParts(c: ClientSide, crc: Digest, keys: byte, flags: byte)
    ensures var p := ProofFrame(c, crc, keys, flags);
            p[0] == 1 && p[1..33] == c.A && p[33..53] == c.M && p[53..73] == crc && p[73] == keys && p[74] == flags
  {
  }
}
