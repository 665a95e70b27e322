/** Logins read with the memory of the read buffer: no assumption on how the stream is split is left. */
module LoginMemory {
  import opened Wrappers
  import opened Bytes
  import opened MessageBuffers
  import opened InterleavedHash
  import opened SrpStandard
  import opened ClientWire
  import opened SecureRemotePassword
  import opened RealmList
  import opened RealmClient
  import opened RealmMeaning
  import opened Authentication
  import opened Framing
  import opened FrameMemory
  import opened LoginRun

  // ---------- the first challenge of a connection ----------

  /** A beginning of a challenge that is short enough for its frame. */
  predicate Begins(p: bytes, challenge: bytes) {
    && p < challenge && 4 <= |challenge| <= 51 && challenge[0] == 0
    && |challenge| == 4 + challenge[2] as int + 256 * (challenge[3] as int)
  }

  lemma BeginningWaits(env: Env, st: Auth, p: bytes, challenge: bytes)
    requires Begins(p, challenge)
    ensures Parse(env, st, p) == Wait(st, p)
  {
    if p != [] {
      assert p[0] == challenge[0];
      if |p| >= CHALLENGE_HEADER {
        assert p[2..4] == challenge[2..4];
        TwoBytesValue(p[2..4]);
      }
    }
  }

  /** Zeros behind a beginning of a challenge always ask for more. */
  lemma ZerosFit(p: bytes, challenge: bytes, junk: Junk)
    requires Begins(p, challenge) && InHeader(p)
    requires forall i: nat :: |p| <= i < CHALLENGE_HEADER ==> junk(i) == 0
    ensures Fits(p, junk)
  {
    TwoBytesValue(challenge[2..4]);
    assert |p| == 3 ==> p[2] == challenge[2];
  }

  /** Until the first challenge of a connection is complete, the memory is what has arrived and then zeros, and
      the session waits: however the challenge is split. */
  lemma {:induction false} FirstChallengeWaits(env: Env, rs: seq<MemRead>, challenge: bytes)
    requires Begins(Input(rs), challenge)
    ensures Possible(env, rs)
    ensures RunMem(env, rs) == Reader(Wait(InitialAuth(), Input(rs)), Input(rs) + Zeros(4096 - |Input(rs)|))
  {
    hide Parse, ReadMem, FeedMem, Fits, InHeader, LeValue;
    if rs == [] {
      assert [] + Zeros(4096) == Zeros(4096);
    } else {
      var front, r := rs[..|rs| - 1], rs[|rs| - 1];
      assert Input(front) <= Input(rs);
      FirstChallengeWaits(env, front, challenge);
      NextPart(env, RunMem(env, front), Input(front), r, challenge);
    }
  }

  lemma NextPart(env: Env, s: Reader, p: bytes, r: MemRead, challenge: bytes)
    requires Begins(p, challenge) && Begins(p + r.data, challenge)
    requires s == Reader(Wait(InitialAuth(), p), p + Zeros(4096 - |p|))
    ensures Roomy(s, r)
    ensures FeedMem(env, s, r)
         == Reader(Wait(InitialAuth(), p + r.data), p + r.data + Zeros(4096 - |p + r.data|))
  {
    hide Parse, ReadMem, FeedMem, Fits, Stored, Normalized, Zeros, Begins;
    var q := p + r.data;
    BeginsShort(p, challenge);
    BeginsShort(q, challenge);
    StoredZeros(p, r.data);
    FeedMemIs(env, s, r);
    PartWaits(env, q, challenge, r.beyond);
  }

  lemma BeginsShort(p: bytes, challenge: bytes)
    requires Begins(p, challenge)
    ensures |p| < 51
  {
  }

  lemma StoredZeros(p: bytes, data: bytes)
    requires |p + data| <= 4096
    ensures Stored(p + Zeros(4096 - |p|), |p|, data) == p + data + Zeros(4096 - |p + data|)
    ensures Normalized(p + data + Zeros(4096 - |p + data|), p + data) == p + data + Zeros(4096 - |p + data|)
  {
  }

  /** One call on a beginning of a challenge with zeros behind it. */
  lemma PartWaits(env: Env, q: bytes, challenge: bytes, beyond: Junk)
    requires Begins(q, challenge)
    ensures |q| <= 4096
    ensures ReadMem(env, InitialAuth(), q + Zeros(4096 - |q|), 0, |q|, beyond) == Wait(InitialAuth(), q)
  {
    hide Parse, ReadMem, Fits, LeValue, Handle;
    var mem := q + Zeros(4096 - |q|);
    assert mem[0..|q|] == q;
    BeginningWaits(env, InitialAuth(), q, challenge);
    ReadMemExactly(env, InitialAuth(), mem, 0, |q|, beyond);
    if InHeader(q) {
      ZerosFit(q, challenge, JunkAt(mem, 0, beyond));
    }
  }

  // ---------- a login, however it is split ----------

  /** The frames that can follow the challenge of a login. */
  predicate Follows(env: Env, st: Auth, proof: bytes, request: bytes) {
    |proof| == 75 && proof[0] == 1 && Handle(env, st, proof).Accept? && IsRequest(request)
  }

  lemma ShortWaits(env: Env, st: Auth, p: bytes, frame: bytes)
    requires p < frame && (frame[0] == CMD_PROOF || frame[0] == CMD_REALMLIST)
    requires |frame| == if frame[0] == CMD_PROOF then PROOF_SIZE else REALMLIST_SIZE
    ensures Parse(env, st, p) == Wait(st, p) && !InHeader(p)
  {
    if p != [] {
      assert p[0] == frame[0];
    }
  }

  /** Any beginning of proof and request waits for more, and what is left over is not inside the header of a
      challenge. */
  lemma RestIsNoHeader(env: Env, st: Auth, p: bytes, proof: bytes, request: bytes)
    requires Follows(env, st, proof, request) && p <= proof + request
    ensures Parse(env, st, p).fate == Waiting && !InHeader(Parse(env, st, p).rest)
  {
    hide Parse, Handle;
    if |p| < PROOF_SIZE {
      assert p < proof;
      ShortWaits(env, st, p, proof);
    } else {
      var q := p[PROOF_SIZE..];
      assert p == proof + q && q <= request;
      AcceptedFrame(env, st, proof, q);
      var auth := Handle(env, st, proof).auth;
      if q == request {
        RequestAccepted(env, auth, request);
        AcceptedFrame(env, auth, request, []);
        assert request + [] == request;
        EmptyStream(env, Handle(env, auth, request).auth);
      } else {
        ShortWaits(env, auth, q, request);
      }
    }
  }

  /** Every read of a login agrees with the reference on everything received so far. */
  lemma {:induction false} LoginReads(env: Env, rs: seq<MemRead>, challenge: bytes, proof: bytes, request: bytes)
    requires Agreeing(challenge) && challenge[0] == 0 && |challenge| <= 51
    requires Handle(env, InitialAuth(), challenge).Accept?
    requires Follows(env, Handle(env, InitialAuth(), challenge).auth, proof, request)
    requires Input(rs) <= challenge + (proof + request)
    ensures Possible(env, rs) && Good(RunMem(env, rs))
    ensures RunMem(env, rs).o == Parse(env, InitialAuth(), Input(rs))
  {
    hide Parse, FeedMem, Handle, Follows, StaleBytes, InHeader;
    var whole := challenge + (proof + request);
    if |Input(rs)| < |challenge| {
      assert Input(rs) < challenge;
      ChallengeBegins(challenge, Input(rs));
      FirstChallengeWaits(env, rs, challenge);
      BeginningWaits(env, InitialAuth(), Input(rs), challenge);
      WaitingIsGood(env, rs, challenge);
    } else if rs != [] {
      var front, r := rs[..|rs| - 1], rs[|rs| - 1];
      assert Input(front) <= Input(rs);
      LoginReads(env, front, challenge, proof, request);
      NothingEnds(env, Input(front), challenge, proof, request);
      var s := RunMem(env, front);
      WholeFits(env, s, r, Input(front), whole, |challenge|);
      FeedMemExactly(env, s, r);
      ParseResumes(env, InitialAuth(), Input(front), r.data);
      var p := Input(rs)[|challenge|..];
      assert Input(rs) == challenge + p && p <= proof + request;
      AcceptedFrame(env, InitialAuth(), challenge, p);
      RestIsNoHeader(env, Handle(env, InitialAuth(), challenge).auth, p, proof, request);
    }
  }

  lemma ChallengeBegins(challenge: bytes, p: bytes)
    requires Agreeing(challenge) && challenge[0] == 0 && |challenge| <= 51
    requires p < challenge
    ensures Begins(p, challenge)
  {
  }

  lemma WaitingIsGood(env: Env, rs: seq<MemRead>, challenge: bytes)
    requires Begins(Input(rs), challenge)
    requires RunMem(env, rs) == Reader(Wait(InitialAuth(), Input(rs)), Input(rs) + Zeros(4096 - |Input(rs)|))
    ensures Good(RunMem(env, rs))
  {
  }

  /** A login is shorter than the buffer. */
  lemma WholeFits(env: Env, s: Reader, r: MemRead, p: bytes, whole: bytes, n: nat)
    requires Good(s) && s.o.fate == Waiting && |whole| <= 51 + 75 + 5
    requires p + r.data <= whole
    ensures Roomy(s, r)
  {
  }

  /** Nothing of a login ends the reading. */
  lemma NothingEnds(env: Env, p: bytes, challenge: bytes, proof: bytes, request: bytes)
    requires Agreeing(challenge) && challenge[0] == 0 && |challenge| <= 51
    requires Handle(env, InitialAuth(), challenge).Accept?
    requires Follows(env, Handle(env, InitialAuth(), challenge).auth, proof, request)
    requires p <= challenge + (proof + request)
    ensures Parse(env, InitialAuth(), p).fate == Waiting
    ensures |challenge + (proof + request)| <= 51 + 75 + 5
  {
    hide Parse, Handle, ChallengeOk;
    if |p| < |challenge| {
      assert p < challenge;
      ChallengeBegins(challenge, p);
      BeginningWaits(env, InitialAuth(), p, challenge);
    } else {
      var q := p[|challenge|..];
      assert p == challenge + q && q <= proof + request;
      AcceptedFrame(env, InitialAuth(), challenge, q);
      RestIsNoHeader(env, Handle(env, InitialAuth(), challenge).auth, q, proof, request);
    }
  }

  /** Login completeness over the wire: however the three frames of a login are split into reads, the session
      handles exactly them, ends with the client's key, and its three replies let the client finish the
      handshake and recover exactly the realms it may see.  Nothing is assumed about the split, and nothing
      about what lies beyond the end of the buffer. */
  lemma LoginAlwaysCompletes(env: Env, rs: seq<MemRead>, v: Visit, x: nat, a: nat,
                             crc: Digest, keys: byte, flags: byte, request: bytes)
    requires GoodVisit(env, v, x) && flags / 4 % 2 == 0 && IsRequest(request)
    requires Input(rs) == Challenge(v) + (ProofFrame(Answer(env, v, x, a), crc, keys, flags) + request)
    requires forall i :: 0 <= i < |env.realms| ==> CleanRealm(env.realms[i])
    ensures Possible(env, rs) && LoggedIn(env, v, x, a, crc, keys, flags, request, RunMem(env, rs).o)
  {
    hide LoggedIn, Answer, Handle, Parse, RunMem, CleanRealm, Possible, BuildKnown, Challenge, ProofFrame, Good;
    TwoFrames(env, v, x, a, crc, keys, flags);
    LoginParses(env, v, x, a, crc, keys, flags, request);
    var c := Answer(env, v, x, a);
    ChallengeIsAgreeing(v);
    ProofParts(c, crc, keys, flags);
    LoginReads(env, rs, Challenge(v), ProofFrame(c, crc, keys, flags), request);
  }

  // ---------- a later challenge can be closed by stale bytes ----------

  /** Three reads: a challenge that is answered, a proof whose third and fourth byte are 0 and 1, and the first byte
      of another challenge.  Stale bytes of the proof lie behind that byte, and the connection is closed; the
      reference waits for the rest of the challenge. */
  lemma StaleProofCloses(env: Env, challenge: bytes, proof: bytes, beyond0: Junk, beyond1: Junk, beyond2: Junk)
    requires Agreeing(challenge) && challenge[0] == 0 && |challenge| <= 51
    requires Handle(env, InitialAuth(), challenge).Accept?
    requires |proof| == 75 && proof[0] == 1 && proof[2] == 0 && proof[3] == 1
    requires Handle(env, Handle(env, InitialAuth(), challenge).auth, proof).Accept?
    ensures var rs := [MemRead(challenge, beyond0), MemRead(proof, beyond1), MemRead([0], beyond2)];
            var full := Parse(env, InitialAuth(), Input(rs));
            && Possible(env, rs)
            && RunMem(env, rs).o == full.(rest := [], fate := Closed)
            && full.fate == Waiting && full.rest == [0] && full.frames == [challenge, proof]
  {
    hide Parse, FeedMem, Handle, ReadMem;
    var r0, r1, r2 := MemRead(challenge, beyond0), MemRead(proof, beyond1), MemRead([0], beyond2);
    InputOfThree(env, r0, r1, r2);
    var first := Handle(env, InitialAuth(), challenge);
    var second := Handle(env, first.auth, proof);
    ReadOneFrame(env, Start(), r0);
    var s0 := FeedMem(env, Start(), r0);
    ReadOneFrame(env, s0, r1);
    var s1 := FeedMem(env, s0, r1);
    assert s1.mem[2] == proof[2] && s1.mem[3] == proof[3];
    StaleLengthCloses(env, s1, r2);
    AcceptedFrame(env, InitialAuth(), challenge, proof + [0]);
    AcceptedFrame(env, first.auth, proof, [CMD_CHALLENGE]);
    HeaderWaits(env, second.auth, [0]);
  }

  /** A read of exactly one accepted frame. */
  lemma ReadOneFrame(env: Env, s: Reader, r: MemRead)
    requires Good(s) && s.o.fate == Waiting && s.o.rest == [] && |r.data| <= 75
    requires r.data != [] && Handle(env, s.o.auth, r.data).Accept?
    requires r.data[0] == 0 ==> |r.data| <= 51
    requires r.data[0] == 16 ==> |r.data| == 5
    ensures Roomy(s, r)
    ensures var h, s' := Handle(env, s.o.auth, r.data), FeedMem(env, s, r);
            && Good(s') && s'.mem == Stored(s.mem, 0, r.data)
            && s'.o == Outcome(h.auth, s.o.frames + [r.data], s.o.replies + [h.reply], [], Waiting)
  {
    hide Parse, FeedMem, Handle;
    AcceptedFrame(env, s.o.auth, r.data, []);
    assert r.data + [] == r.data;
    EmptyStream(env, Handle(env, s.o.auth, r.data).auth);
    OneRead(env, s, r);
  }

  lemma InputOfThree(env: Env, r0: MemRead, r1: MemRead, r2: MemRead)
    ensures Input([r0, r1, r2]) == r0.data + (r1.data + r2.data)
    ensures var s0 := FeedMem(env, Start(), r0);
            var s1 := FeedMem(env, s0, r1);
            && RunMem(env, [r0, r1, r2]) == FeedMem(env, s1, r2)
            && (Possible(env, [r0, r1, r2]) <==> Roomy(Start(), r0) && Roomy(s0, r1) && Roomy(s1, r2))
  {
    hide FeedMem, Roomy, Start;
    assert [r0][..0] == [] && [r0, r1][..1] == [r0] && [r0, r1, r2][..2] == [r0, r1];
    assert RunMem(env, [r0]) == FeedMem(env, Start(), r0);
    assert RunMem(env, [r0, r1]) == FeedMem(env, FeedMem(env, Start(), r0), r1);
    assert Possible(env, [r0]) <==> Roomy(Start(), r0);
    assert Possible(env, [r0, r1]) <==> Possible(env, [r0]) && Roomy(RunMem(env, [r0]), r1);
    assert Possible(env, [r0, r1, r2]) <==> Possible(env, [r0, r1]) && Roomy(RunMem(env, [r0, r1]), r2);
    assert Input([r0]) == [] + r0.data == r0.data;
    assert Input([r0, r1, r2]) == (r0.data + r1.data) + r2.data;
  }

  /** Concrete bytes: an account without anything known about its password, and a proof that is wrong. */
  lemma StaleBytesClose(h: Hash, beyond: Junk)
    ensures var account := Account(0, [65], Zeros(EPHEMERAL_KEY_LENGTH), Zeros(EPHEMERAL_KEY_LENGTH));
            var env := Env(h, map[[65] := account], [BuildInfo(0, 1, 12, 1)], [], map[], []);
            var rs := [MemRead(SAMPLE, beyond), MemRead([1, 0, 0, 1] + Zeros(71), beyond), MemRead([0], beyond)];
            && Possible(env, rs) && RunMem(env, rs).o.fate == Closed
            && Parse(env, InitialAuth(), Input(rs)).fate == Waiting
  {
    hide Parse, Handle, RunMem, Possible, LeValue, Input;
    var account := Account(0, [65], Zeros(EPHEMERAL_KEY_LENGTH), Zeros(EPHEMERAL_KEY_LENGTH));
    var env := Env(h, map[[65] := account], [BuildInfo(0, 1, 12, 1)], [], map[], []);
    var proof: bytes := [1, 0, 0, 1] + Zeros(71);
    assert env.builds[0].build == 0;
    ChallengeIsAgreeing(Sample(0));
    ChallengeVerdict(env, InitialAuth(), SAMPLE);
    ProofVerdict(env, Handle(env, InitialAuth(), SAMPLE).auth, proof);
    StaleProofCloses(env, SAMPLE, proof, beyond, beyond, beyond);
  }
}
