/** A whole login over one connection: the challenge, the proof that answers it, and the request for the
    realm list arrive as one byte stream in any chunks. */
module LoginRun {
  import opened Wrappers
  import opened Bytes
  import opened InterleavedHash
  import opened SrpStandard
  import opened ClientWire
  import opened SecureRemotePassword
  import opened RealmList
  import opened RealmClient
  import opened RealmMeaning
  import opened Authentication
  import opened Framing

  /** A complete frame that its handler accepts is cut off the front of the stream. */
  lemma AcceptedFrame(env: Env, st: Auth, frame: bytes, rest: bytes)
    requires frame != [] && Handle(env, st, frame).Accept?
    requires frame[0] == 0 ==> |frame| <= 51
    requires frame[0] == 16 ==> |frame| == 5
    ensures var h := Handle(env, st, frame);
            Parse(env, st, frame + rest) == Then(frame, h.reply, Parse(env, h.auth, rest))
  {
    hide Then, LeValue;
    var input := frame + rest;
    AcceptedSize(env, st, frame);
    assert input[..|frame|] == frame && input[|frame|..] == rest && input[0] == frame[0];
    if frame[0] == CMD_CHALLENGE {
      assert input[2..4] == frame[2..4];
      TwoBytesValue(frame[2..4]);
    }
  }

  /** A visit of a client whose build is known, whose name is short enough for a frame and has an account, and
      whose verifier belongs to x. */
  ghost predicate GoodVisit(env: Env, v: Visit, x: nat) {
    && WellFormed(v) && |v.name| <= 17 && BuildKnown(env, v.build)
    && v.name in env.accounts && env.accounts[v.name].verifier == StoredVerifier(x)
  }

  /** A visit to the account "A". */
  function Sample(build: nat): (v: Visit)
    requires build < 65536
    ensures WellFormed(v)
  {
    Visit(0, seq(7, _ => 0), build, seq(20, _ => 0), [65])
  }

  const SAMPLE: bytes := Challenge(Sample(0))

  /** For every hash function and password exponent there are such visits, of every build and with every name of
      at most 17 bytes. */
  lemma GoodVisitsExist(h: Hash, x: nat, build: nat, name: bytes)
    requires build < 65536 && |name| <= 17
    ensures exists env: Env, v: Visit :: env.hash == h && v.build == build && v.name == name && GoodVisit(env, v, x)
  {
    var account := Account(0, name, seq(EPHEMERAL_KEY_LENGTH, _ => 0), StoredVerifier(x));
    var env := Env(h, map[name := account], [BuildInfo(build, 1, 12, 1)], [], map[], []);
    var v := Visit(0, seq(7, _ => 0), build, seq(20, _ => 0), name);
    assert env.builds[0].build == build;
    assert GoodVisit(env, v, x);
  }

  lemma ReplyIsReadable(env: Env, v: Visit, x: nat)
    requires GoodVisit(env, v, x)
    ensures var h := Handle(env, InitialAuth(), Challenge(v));
            h.Accept? && DecodeHello(h.reply).Some? && Number(DecodeHello(h.reply).value.n) > 0
  {
    hide RunClient, DecodeHello, DecodeProofReply, Handle, Expected, Number;
    HandshakeCompletes(env, InitialAuth(), v, x, 0, seq(20, _ => 0), 0, 0);
  }

  /** What the client computes from the reply to its challenge. */
  ghost function Answer(env: Env, v: Visit, x: nat, a: nat): ClientSide
    requires GoodVisit(env, v, x)
  {
    ReplyIsReadable(env, v, x);
    RunClient(env.hash, env.accounts[v.name].username, x, a, DecodeHello(Handle(env, InitialAuth(), Challenge(v)).reply).value)
  }

  predicate IsRequest(request: bytes) {
    |request| == 5 && request[0] == 16
  }

  /** What client and server know after the three frames of a login: the client can compute its side from the first
      reply, the session has its key, the second reply proves that to the client, and the third tells it about the
      realms it may see, with the character counts of the account that it named. */
  ghost predicate LoggedIn(env: Env, v: Visit, x: nat, a: nat, crc: Digest, keys: byte, flags: byte, request: bytes, o: Outcome)
    requires GoodVisit(env, v, x)
  {
    var post, account, c := v.build > 6141, env.accounts[v.name], Answer(env, v, x, a);
    && o.fate == Waiting && o.rest == []
    && o.frames == [Challenge(v), ProofFrame(c, crc, keys, flags), request] && |o.replies| == 3
    && DecodeHello(o.replies[0]).Some? && Number(DecodeHello(o.replies[0]).value.n) > 0
    && c == RunClient(env.hash, account.username, x, a, DecodeHello(o.replies[0]).value)
    && o.auth.sessionKey == c.key && o.auth.accountId == account.id && o.auth.build == v.build
    && DecodeProofReply(post, o.replies[1]) == Some(Expected(env.hash, post, c.A, c.M, c.key))
    && var dialect := if post then PostBc else PreBc;
       (Tells(o.replies[2], env.realms, env.builds, v.build, dialect, CountsOf(env, account.id))
        <==> Fitting(o.replies[2], env.realms, env.builds, v.build, dialect))
  }

  /** The session after each of the first two frames of a login. */
  lemma TwoFrames(env: Env, v: Visit, x: nat, a: nat, crc: Digest, keys: byte, flags: byte)
    requires GoodVisit(env, v, x) && flags / 4 % 2 == 0
    ensures var c := Answer(env, v, x, a);
            var first := Handle(env, InitialAuth(), Challenge(v));
            && first.Accept?
            && var second := Handle(env, first.auth, ProofFrame(c, crc, keys, flags));
            && second.Accept? && second.auth.sessionKey == c.key
            && second.auth.build == v.build && second.auth.expansion == (if v.build > 6141 then PostBc else PreBc)
            && second.auth.accountId == env.accounts[v.name].id
            && second.auth.exchange.Some? && second.auth.exchange.value.used
  {
    hide RunClient, DecodeHello, DecodeProofReply, Handle, Expected, Number, Challenge, ProofFrame, Proven,
         ServerPublic, ThirtyTwo, ServerKeyOf;
    HandshakeCompletes(env, InitialAuth(), v, x, a, crc, keys, flags);
    ChallengeIsAgreeing(v);
    ChallengeVerdict(env, InitialAuth(), Challenge(v));
    var c := Answer(env, v, x, a);
    ProofParts(c, crc, keys, flags);
    ProofVerdict(env, Handle(env, InitialAuth(), Challenge(v)).auth, ProofFrame(c, crc, keys, flags));
  }

  /** The reference on a whole login. */
  lemma LoginParses(env: Env, v: Visit, x: nat, a: nat, crc: Digest, keys: byte, flags: byte, request: bytes)
    requires GoodVisit(env, v, x) && flags / 4 % 2 == 0 && IsRequest(request)
    requires forall i :: 0 <= i < |env.realms| ==> CleanRealm(env.realms[i])
    ensures var proof := ProofFrame(Answer(env, v, x, a), crc, keys, flags);
            LoggedIn(env, v, x, a, crc, keys, flags, request, Parse(env, InitialAuth(), Challenge(v) + (proof + request)))
  {
    hide RunClient, DecodeHello, DecodeProofReply, Handle, Parse, Expected, Number, Challenge, ProofFrame, Tells, Fitting, CleanRealm;
    HandshakeCompletes(env, InitialAuth(), v, x, a, crc, keys, flags);
    TwoFrames(env, v, x, a, crc, keys, flags);
    var c := Answer(env, v, x, a);
    var proof := ProofFrame(c, crc, keys, flags);
    ProofParts(c, crc, keys, flags);
    var first := Handle(env, InitialAuth(), Challenge(v));
    var second := Handle(env, first.auth, proof);
    RequestVerdict(env, second.auth, request);
    ChallengeTaken(env, InitialAuth(), v, proof + request);
    AcceptedFrame(env, first.auth, proof, request);
    AcceptedFrame(env, second.auth, request, []);
    assert request + [] == request;
    EmptyStream(env, second.auth);
  }

  lemma StreamOf(a: Read, b: Read, c: Read)
    ensures Stream([a]) == a.data && Stream([a, b]) == a.data + b.data
    ensures Stream([a, b, c]) == a.data + (b.data + c.data)
  {
    assert [a][..0] == [] && [a, b][..1] == [a] && [a, b, c][..2] == [a, b];
    assert Stream([a]) == [] + a.data;
    assert Stream([a, b, c]) == (a.data + b.data) + c.data;
  }

  /** A client that waits for each reply sends every frame in a read of its own: such reads are safe,
      whatever lies behind the received bytes. */
  lemma FrameByFrameIsSafe(env: Env, v: Visit, x: nat, a: nat, crc: Digest, keys: byte, flags: byte,
                           request: bytes, junk0: Junk, junk1: Junk, junk2: Junk)
    requires GoodVisit(env, v, x) && flags / 4 % 2 == 0 && IsRequest(request)
    ensures var proof := ProofFrame(Answer(env, v, x, a), crc, keys, flags);
            var chunks := [Read(Challenge(v), junk0), Read(proof, junk1), Read(request, junk2)];
            && Stream(chunks) == Challenge(v) + (proof + request)
            && forall k :: 0 < k <= |chunks| ==> SafeRead(env, InitialAuth(), chunks[..k])
  {
    hide Answer, Handle, Parse, Stream, InHeader, Fits, Challenge, ProofFrame, BuildKnown;
    TwoFrames(env, v, x, a, crc, keys, flags);
    var c := Answer(env, v, x, a);
    var challenge, proof := Challenge(v), ProofFrame(c, crc, keys, flags);
    ProofParts(c, crc, keys, flags);
    var first := Handle(env, InitialAuth(), challenge);
    var second := Handle(env, first.auth, proof);
    RequestAccepted(env, second.auth, request);
    var r0, r1, r2 := Read(challenge, junk0), Read(proof, junk1), Read(request, junk2);
    StreamOf(r0, r1, r2);
    NothingKept();
    FrontOfLogin(env, v, x, proof, [], []);
    FrontOfLogin(env, v, x, proof, proof, []);
    FrontOfLogin(env, v, x, proof, proof, request);
    var chunks := [r0, r1, r2];
    assert chunks[..1] == [r0] && chunks[..2] == [r0, r1] && chunks[..3] == chunks;
    forall k | 0 < k <= |chunks| ensures SafeRead(env, InitialAuth(), chunks[..k]) {
      assert k == 1 || k == 2 || k == 3;
    }
  }

  /** Nothing is kept behind the first frames of a login. */
  lemma FrontOfLogin(env: Env, v: Visit, x: nat, proof: bytes, p: bytes, q: bytes)
    requires GoodVisit(env, v, x) && Handle(env, InitialAuth(), Challenge(v)).Accept?
    requires |proof| == 75 && proof[0] == 1 && Handle(env, Handle(env, InitialAuth(), Challenge(v)).auth, proof).Accept?
    requires p == [] || p == proof
    requires q == [] || (p == proof && IsRequest(q))
    ensures Challenge(v) + p + q == Challenge(v) + (p + q)
    ensures p == [] ==> Challenge(v) + (p + q) == Challenge(v)
    ensures q == [] ==> Challenge(v) + (p + q) == Challenge(v) + p
    ensures Parse(env, InitialAuth(), Challenge(v) + (p + q)).rest == []
  {
    hide Handle, Parse, Challenge;
    var first := Handle(env, InitialAuth(), Challenge(v));
    ChallengeTaken(env, InitialAuth(), v, p + q);
    EmptyStream(env, first.auth);
    if p != [] {
      var second := Handle(env, first.auth, proof);
      AcceptedFrame(env, first.auth, proof, q);
      EmptyStream(env, second.auth);
      if q != [] {
        RequestAccepted(env, second.auth, q);
        AcceptedFrame(env, second.auth, q, []);
        assert q + [] == q;
      }
    }
  }

  lemma RequestAccepted(env: Env, st: Auth, request: bytes)
    requires IsRequest(request)
    ensures Handle(env, st, request).Accept? && Handle(env, st, request).auth == st
  {
    hide Packet, Entries;
  }

  lemma NothingKept()
    ensures !InHeader([])
  {
  }

  /** Login completeness over the wire: however the stream is split into safe reads, the session handles
      exactly the three frames, ends with the client's key, and its three replies let the client finish
      the handshake and learn about exactly the realms it may see. */
  lemma LoginCompletes(env: Env, chunks: seq<Read>, v: Visit, x: nat, a: nat,
                       crc: Digest, keys: byte, flags: byte, request: bytes)
    requires GoodVisit(env, v, x) && flags / 4 % 2 == 0 && IsRequest(request)
    requires Stream(chunks) == Challenge(v) + (ProofFrame(Answer(env, v, x, a), crc, keys, flags) + request)
    requires forall k :: 0 < k <= |chunks| ==> SafeRead(env, InitialAuth(), chunks[..k])
    requires forall i :: 0 <= i < |env.realms| ==> CleanRealm(env.realms[i])
    ensures LoggedIn(env, v, x, a, crc, keys, flags, request, RunReads(env, InitialAuth(), chunks))
  {
    hide LoggedIn, Answer, Parse, RunReads, SafeRead, Stream, CleanRealm, GoodVisit, Challenge, ProofFrame;
    SafeRunsAgree(env, InitialAuth(), chunks);
    LoginParses(env, v, x, a, crc, keys, flags, request);
  }

  // ---------- proofs without an exchange ----------

  /** A proof in a state that has no unused exchange for a known build ends the stream without an outcome. */
  lemma ProofAborts(env: Env, st: Auth, proof: bytes)
    requires |proof| == 75 && proof[0] == 1
    requires st.expansion != Invalid && (st.exchange.None? || st.exchange.value.used)
    ensures Parse(env, st, proof) == Ended(st, Aborted)
  {
    hide Parse, Handle;
    assert proof[..75] == proof;
    RoundInNumbers(env, st, proof);
    UndefinedIff(env, st, proof);
  }

  /** A challenge for a known build and an unknown account starts no exchange, and a proof after it aborts. */
  lemma ProofWithoutAccountAborts(env: Env, v: Visit, proof: bytes)
    requires WellFormed(v) && |v.name| <= 17 && BuildKnown(env, v.build) && v.name !in env.accounts
    requires |proof| == 75 && proof[0] == 1
    ensures var o := Parse(env, InitialAuth(), Challenge(v) + proof);
            o.fate == Aborted && o.frames == [Challenge(v)]
  {
    hide Parse, Handle, Challenge;
    ChallengeIsAgreeing(v);
    ChallengeVerdict(env, InitialAuth(), Challenge(v));
    ChallengeTaken(env, InitialAuth(), v, proof);
    ProofAborts(env, Handle(env, InitialAuth(), Challenge(v)).auth, proof);
  }

  /** So does a second proof after a completed handshake. */
  lemma SecondProofAborts(env: Env, v: Visit, x: nat, a: nat, crc: Digest, keys: byte, flags: byte, again: bytes)
    requires GoodVisit(env, v, x) && flags / 4 % 2 == 0
    requires |again| == 75 && again[0] == 1
    ensures var proof := ProofFrame(Answer(env, v, x, a), crc, keys, flags);
            var o := Parse(env, InitialAuth(), Challenge(v) + (proof + again));
            o.fate == Aborted && o.frames == [Challenge(v), proof]
  {
    hide Answer, Parse, Handle, Challenge, ProofFrame;
    TwoFrames(env, v, x, a, crc, keys, flags);
    var c := Answer(env, v, x, a);
    var proof := ProofFrame(c, crc, keys, flags);
    ProofParts(c, crc, keys, flags);
    var first := Handle(env, InitialAuth(), Challenge(v));
    ChallengeTaken(env, InitialAuth(), v, proof + again);
    AcceptedFrame(env, first.auth, proof, again);
    ProofAborts(env, Handle(env, first.auth, proof).auth, again);
  }

  /** A concrete stream: the build is known, there are no accounts, and the proof is all zeros but its command. */
  lemma AbortingStream(h: Hash)
    ensures var env := Env(h, map[], [BuildInfo(0, 1, 12, 1)], [], map[], []);
            Parse(env, InitialAuth(), SAMPLE + ([1] + seq(74, _ => 0))).fate == Aborted
  {
    hide Parse, Challenge;
    var env := Env(h, map[], [BuildInfo(0, 1, 12, 1)], [], map[], []);
    assert env.builds[0].build == 0;
    ProofWithoutAccountAborts(env, Sample(0), [1] + seq(74, _ => 0));
  }

  // ---------- realm lists that a client cannot read ----------

  const REQUEST: bytes := [16, 0, 0, 0, 0]

  /** A challenge with a known build and then a request for the realm list. */
  lemma RequestAfterChallenge(env: Env, build: nat)
    requires build < 65536 && BuildKnown(env, build) && env.accounts == map[] && env.characters == map[]
    requires forall i :: 0 <= i < |env.realms| ==> CleanRealm(env.realms[i])
    ensures var o := Parse(env, InitialAuth(), Challenge(Sample(build)) + REQUEST);
            var dialect := if build > 6141 then PostBc else PreBc;
            && o.fate == Waiting && |o.replies| == 2
            && (Tells(o.replies[1], env.realms, env.builds, build, dialect, map[])
                <==> Fitting(o.replies[1], env.realms, env.builds, build, dialect))
            && |o.replies[1]| >= 8 + 8 * |Shown(env.realms, env.builds, build)|
  {
    hide Parse, Handle, Challenge, Tells, Fitting, CleanRealm, BuildKnown, Shown;
    var v := Sample(build);
    ChallengeIsAgreeing(v);
    ChallengeVerdict(env, InitialAuth(), Challenge(v));
    ChallengeTaken(env, InitialAuth(), v, REQUEST);
    var first := Handle(env, InitialAuth(), Challenge(v));
    RequestVerdict(env, first.auth, REQUEST);
    RequestTakesRoom(env, first.auth);
    AcceptedFrame(env, first.auth, REQUEST, []);
    assert REQUEST + [] == REQUEST;
    EmptyStream(env, first.auth);
  }

  /** A request on a new connection is answered too, as for build 0, account 0 and the older format. */
  lemma EarlyRequest(env: Env, request: bytes)
    requires IsRequest(request)
    requires forall i :: 0 <= i < |env.realms| ==> CleanRealm(env.realms[i])
    ensures var o := Parse(env, InitialAuth(), request);
            && o.fate == Waiting && o.frames == [request] && |o.replies| == 1
            && (Tells(o.replies[0], env.realms, env.builds, 0, Invalid, CountsOf(env, 0))
                <==> Fitting(o.replies[0], env.realms, env.builds, 0, Invalid))
  {
    hide Parse, Handle, Tells, Fitting, CleanRealm;
    RequestVerdict(env, InitialAuth(), request);
    AcceptedFrame(env, InitialAuth(), request, []);
    assert request + [] == request;
    EmptyStream(env, InitialAuth());
  }

  lemma RequestTakesRoom(env: Env, st: Auth)
    ensures |Handle(env, st, REQUEST).reply| >= 8 + 8 * |Shown(env.realms, env.builds, st.build)|
  {
    hide EncodeEntries, Entries, Shown, LeBytes;
    var v := ViewOf(env, st);
    EntriesDescribe(env.realms, v);
    EveryEntryTakesRoom(v.expansion == PostBc, Entries(env.realms, v));
  }

  lemma {:induction false} AllPlainShown(n: nat, builds: seq<BuildInfo>, build: nat)
    ensures |Shown(PlainRealms(n, build), builds, build)| == n
  {
    if n > 0 {
      assert PlainRealms(n, build)[..n - 1] == PlainRealms(n - 1, build);
      AllPlainShown(n - 1, builds, build);
    }
  }

  /** Streams whose realm list the client cannot read, for either limit of the format: all realms have different
      ids and are of the client's own, known build. */
  lemma UnreadableRealmLists(h: Hash)
    ensures var env := Env(h, map[], [BuildInfo(0, 1, 12, 1)], PlainRealms(256, 0), map[], []);
            var o := Parse(env, InitialAuth(), Challenge(Sample(0)) + REQUEST);
            && o.fate == Waiting && |o.replies| == 2
            && !Tells(o.replies[1], env.realms, env.builds, 0, PreBc, map[])
    ensures var env := Env(h, map[], [BuildInfo(8606, 2, 4, 3)], PlainRealms(10000, 8606), map[], []);
            var o := Parse(env, InitialAuth(), Challenge(Sample(8606)) + REQUEST);
            && o.fate == Waiting && |o.replies| == 2
            && !Tells(o.replies[1], env.realms, env.builds, 8606, PostBc, map[])
  {
    hide Parse, Tells, PlainRealms, Challenge, Shown, CleanRealm;
    var old' := Env(h, map[], [BuildInfo(0, 1, 12, 1)], PlainRealms(256, 0), map[], []);
    assert old'.builds[0].build == 0;
    RequestAfterChallenge(old', 0);
    AllPlainShown(256, old'.builds, 0);
    var new' := Env(h, map[], [BuildInfo(8606, 2, 4, 3)], PlainRealms(10000, 8606), map[], []);
    assert new'.builds[0].build == 8606;
    RequestAfterChallenge(new', 8606);
    AllPlainShown(10000, new'.builds, 8606);
  }
}
