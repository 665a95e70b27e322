/** A session key has to be earned: whatever bytes a connection receives, its key is all zeros, or the client has
    answered an exchange that was begun for a known account, and that no other proof had used, with the evidence
    for exactly this key. */
module KeySafety {
  import opened Wrappers
  import opened Bytes
  import opened InterleavedHash
  import opened SrpStandard
  import opened SecureRemotePassword
  import opened RealmList
  import opened Authentication
  import opened Framing
  import opened FrameMemory

  /** A challenge that begins an exchange. */
  ghost predicate Begins(env: Env, frame: bytes) {
    && Agreeing(frame) && frame[0] == 0
    && BuildKnown(env, frame[11] as int + 256 * (frame[12] as int)) && frame[34..] in env.accounts
  }

  ghost function Exchanges(env: Env, frames: seq<bytes>): nat {
    if frames == [] then 0
    else Exchanges(env, frames[..|frames| - 1]) + (if Begins(env, frames[|frames| - 1]) then 1 else 0)
  }

  /** Frame j began the exchange with the secret exponent b, and neither a proof nor another exchange came after it. */
  ghost predicate Open(env: Env, frames: seq<bytes>, j: nat, b: nat) {
    && j < |frames| && Begins(env, frames[j])
    && (forall k :: j < k < |frames| ==> (frames[k] == [] || frames[k][0] != 1) && !Begins(env, frames[k]))
    && (Exchanges(env, frames[..j]) < |env.randoms| ==> b == Number(env.randoms[Exchanges(env, frames[..j])]))
  }

  ghost function AccountOf(env: Env, frame: bytes): Account
    requires Begins(env, frame)
  {
    env.accounts[frame[34..]]
  }

  /** The frame is a proof whose evidence is that of this account's verifier, the exponent b and this key. */
  ghost predicate Evident(env: Env, account: Account, b: nat, frame: bytes, key: bytes) {
    && |frame| == 75 && frame[0] == 1 && |key| == 40
    && var A: EphemeralKey, M: Digest, v := frame[1..33], frame[33..53], Number(account.verifier);
       var B := ThirtyTwo(ServerPublic(b, v));
       && Number(A) % MODULUS != 0
       && key == ServerKeyOf(env.hash, v, b, A, B)
       && M == env.hash(EvidenceText(env.hash(ThirtyTwo(MODULUS)), env.hash([7]), env.hash(account.username), account.salt, A, B, key))
  }

  /** Frame i is a proof that earns the key in the exchange begun by frame j. */
  ghost predicate EarnedAt(env: Env, frames: seq<bytes>, key: bytes, i: nat, j: nat, b: nat) {
    && j < i < |frames| && Open(env, frames[..i], j, b)
    && Begins(env, frames[j]) && Evident(env, AccountOf(env, frames[j]), b, frames[i], key)
  }

  ghost predicate Earned(env: Env, frames: seq<bytes>, key: bytes) {
    exists i: nat, j: nat, b: nat :: EarnedAt(env, frames, key, i, j, b)
  }

  /** The exchange of the session is that of frame j. */
  ghost predicate Belongs(env: Env, st: Auth, e: Exchange, frames: seq<bytes>, j: nat) {
    && Open(env, frames, j, e.b)
    && var account := AccountOf(env, frames[j]);
       && st.accountId == account.id
       && e.I == env.hash(account.username) && e.s == account.salt && e.v == Number(account.verifier)
       && e.B == ThirtyTwo(ServerPublic(e.b, e.v))
  }

  ghost predicate Holds(env: Env, st: Auth, frames: seq<bytes>) {
    && st.exchanges == Exchanges(env, frames)
    && (st.exchange.Some? && !st.exchange.value.used ==> exists j: nat :: Belongs(env, st, st.exchange.value, frames, j))
    && (st.sessionKey == seq(40, _ => 0) || Earned(env, frames, st.sessionKey))
  }

  // ---------- one frame ----------

  lemma EarnedStays(env: Env, frames: seq<bytes>, frame: bytes, key: bytes)
    requires Earned(env, frames, key)
    ensures Earned(env, frames + [frame], key)
  {
    hide Open, Evident, Begins;
    var i: nat, j: nat, b: nat :| EarnedAt(env, frames, key, i, j, b);
    var fs := frames + [frame];
    assert fs[..i] == frames[..i] && fs[i] == frames[i] && fs[j] == frames[j];
    assert EarnedAt(env, fs, key, i, j, b);
  }

  lemma OpenInside(env: Env, frames: seq<bytes>, j: nat, b: nat)
    requires Open(env, frames, j, b)
    ensures j < |frames| && Begins(env, frames[j])
  {
  }

  lemma OneMoreFrame(env: Env, frames: seq<bytes>, frame: bytes)
    ensures Exchanges(env, frames + [frame]) == Exchanges(env, frames) + (if Begins(env, frame) then 1 else 0)
  {
    assert (frames + [frame])[..|frames|] == frames;
  }

  /** Anything but a proof or a new exchange leaves the exchange open. */
  lemma OpenStays(env: Env, frames: seq<bytes>, frame: bytes, j: nat, b: nat)
    requires Open(env, frames, j, b) && (frame == [] || frame[0] != 1) && !Begins(env, frame)
    ensures Open(env, frames + [frame], j, b)
  {
    hide Begins;
    assert (frames + [frame])[..j] == frames[..j];
  }

  lemma OpenAtEnd(env: Env, frames: seq<bytes>, frame: bytes, b: nat)
    requires Begins(env, frame)
    requires Exchanges(env, frames) < |env.randoms| ==> b == Number(env.randoms[Exchanges(env, frames)])
    ensures Open(env, frames + [frame], |frames|, b)
  {
    hide Begins;
    assert (frames + [frame])[..|frames|] == frames;
  }

  lemma ChallengeKeeps(env: Env, st: Auth, frames: seq<bytes>, frame: bytes)
    requires Holds(env, st, frames) && frame != [] && frame[0] == 0 && Handle(env, st, frame).Accept?
    ensures Holds(env, Handle(env, st, frame).auth, frames + [frame])
  {
    hide Handle, Open, Earned, Number, ThirtyTwo, ServerPublic, Exchanges;
    var h := Handle(env, st, frame);
    ChallengeVerdict(env, st, frame);
    OneMoreFrame(env, frames, frame);
    if Earned(env, frames, st.sessionKey) {
      EarnedStays(env, frames, frame, st.sessionKey);
    }
    if Begins(env, frame) {
      OpenAtEnd(env, frames, frame, h.auth.exchange.value.b);
      assert Belongs(env, h.auth, h.auth.exchange.value, frames + [frame], |frames|);
    } else if st.exchange.Some? && !st.exchange.value.used {
      ExchangeStays(env, st, h.auth, frames, frame);
    }
  }

  lemma ExchangeStays(env: Env, st: Auth, st': Auth, frames: seq<bytes>, frame: bytes)
    requires st.exchange.Some? && exists j: nat :: Belongs(env, st, st.exchange.value, frames, j)
    requires st'.exchange == st.exchange && st'.accountId == st.accountId
    requires (frame == [] || frame[0] != 1) && !Begins(env, frame)
    ensures exists j: nat :: Belongs(env, st', st'.exchange.value, frames + [frame], j)
  {
    hide Open, Number, ThirtyTwo, ServerPublic, Begins;
    var e := st.exchange.value;
    var j: nat :| Belongs(env, st, e, frames, j);
    OpenInside(env, frames, j, e.b);
    OpenStays(env, frames, frame, j, e.b);
    assert (frames + [frame])[j] == frames[j];
    assert Belongs(env, st', e, frames + [frame], j);
  }

  lemma ProofKeeps(env: Env, st: Auth, frames: seq<bytes>, frame: bytes)
    requires Holds(env, st, frames) && |frame| == 75 && frame[0] == 1 && Handle(env, st, frame).Accept?
    ensures Holds(env, Handle(env, st, frame).auth, frames + [frame])
  {
    hide Handle, Open, Earned, Number, ThirtyTwo, ServerPublic, Exchanges, Evident, Proven, ServerKeyOf;
    var h := Handle(env, st, frame);
    OneMoreFrame(env, frames, frame);
    UndefinedIff(env, st, frame);
    ProofRefusedIff(env, st, frame);
    if Earned(env, frames, st.sessionKey) {
      EarnedStays(env, frames, frame, st.sessionKey);
    }
    var e := st.exchange.value;
    var j: nat :| Belongs(env, st, e, frames, j);
    ProofVerdict(env, st, frame);
    var A: EphemeralKey, M: Digest := frame[1..33], frame[33..53];
    if Proven(env.hash, e, A, M) {
      KeyIsEarnedNow(env, st, e, frames, frame, j);
    }
  }

  lemma KeyIsEarnedNow(env: Env, st: Auth, e: Exchange, frames: seq<bytes>, frame: bytes, j: nat)
    requires Belongs(env, st, e, frames, j) && |frame| == 75 && frame[0] == 1 && |e.s| == 32
    requires Proven(env.hash, e, frame[1..33], frame[33..53])
    ensures Earned(env, frames + [frame], ServerKeyOf(env.hash, e.v, e.b, frame[1..33], e.B))
  {
    hide Open, Number, ThirtyTwo, ServerPublic, Exchanges, ServerKeyOf, EvidenceText, Begins;
    var fs, i := frames + [frame], |frames|;
    OpenInside(env, frames, j, e.b);
    assert fs[..i] == frames && fs[i] == frame && fs[j] == frames[j];
    assert EarnedAt(env, fs, ServerKeyOf(env.hash, e.v, e.b, frame[1..33], e.B), i, j, e.b);
  }

  lemma RequestKeeps(env: Env, st: Auth, frames: seq<bytes>, frame: bytes)
    requires Holds(env, st, frames) && frame != [] && frame[0] != 0 && frame[0] != 1 && Handle(env, st, frame).Accept?
    ensures Holds(env, Handle(env, st, frame).auth, frames + [frame])
  {
    hide Handle, Open, Earned, Exchanges;
    OtherKeepsSession(env, st, frame);
    OneMoreFrame(env, frames, frame);
    if Earned(env, frames, st.sessionKey) {
      EarnedStays(env, frames, frame, st.sessionKey);
    }
    if st.exchange.Some? && !st.exchange.value.used {
      ExchangeStays(env, st, st, frames, frame);
    }
  }

  lemma OtherKeepsSession(env: Env, st: Auth, frame: bytes)
    requires frame != [] && frame[0] != 0 && frame[0] != 1 && Handle(env, st, frame).Accept?
    ensures Handle(env, st, frame).auth == st
  {
    hide Packet, Entries;
  }

  lemma FrameKeeps(env: Env, st: Auth, frames: seq<bytes>, frame: bytes)
    requires Holds(env, st, frames) && Handle(env, st, frame).Accept?
    ensures Holds(env, Handle(env, st, frame).auth, frames + [frame])
  {
    hide Handle, Holds;
    AcceptedSize(env, st, frame);
    if frame[0] == 0 {
      ChallengeKeeps(env, st, frames, frame);
    } else if frame[0] == 1 {
      ProofKeeps(env, st, frames, frame);
    } else {
      RequestKeeps(env, st, frames, frame);
    }
  }

  // ---------- streams ----------

  lemma {:induction false} StreamKeeps(env: Env, st: Auth, frames: seq<bytes>, input: bytes)
    requires Holds(env, st, frames)
    ensures Holds(env, Parse(env, st, input).auth, frames + Parse(env, st, input).frames)
    decreases |input|
  {
    hide Holds, Handle, LeValue, Known, TooLong, FrameSize, Parse;
    var o := Parse(env, st, input);
    assert frames + [] == frames;
    if input == [] {
      EmptyStream(env, st);
    } else if InHeader(input) {
      HeaderWaits(env, st, input);
    } else {
      ParseRound(env, st, input);
      var size := FrameSize(input[0], if |input| >= CHALLENGE_HEADER then LeValue(input[2..4]) else 0);
      if Known(input[0]) && !TooLong(input[0], size) && size <= |input| && Handle(env, st, input[..size]).Accept? {
        var frame, h := input[..size], Handle(env, st, input[..size]);
        AcceptedSize(env, st, frame);
        FrameKeeps(env, st, frames, frame);
        StreamKeeps(env, h.auth, frames + [frame], input[size..]);
        var rest := Parse(env, h.auth, input[size..]);
        assert frames + ([frame] + rest.frames) == (frames + [frame]) + rest.frames;
      }
    }
  }

  /** For every environment and every stream: the session key is all zeros, or one of the handled frames is a proof
      with the evidence for this key, for the account named in the last challenge that began an exchange before it,
      with that exchange's secret exponent, and no other proof lies between the two. */
  lemma KeyIsEarned(env: Env, input: bytes)
    ensures var o := Parse(env, InitialAuth(), input);
            o.auth.sessionKey == seq(40, _ => 0) || Earned(env, o.frames, o.auth.sessionKey)
  {
    hide Parse, Earned, Open, Belongs;
    assert Holds(env, InitialAuth(), []);
    StreamKeeps(env, InitialAuth(), [], input);
    var o := Parse(env, InitialAuth(), input);
    assert [] + o.frames == o.frames;
  }

  /** The same for the session as it reads, however the stream is split and whatever stale bytes it looks at. */
  lemma KeyIsEarnedInMemory(env: Env, rs: seq<MemRead>)
    ensures var o := RunMem(env, rs).o;
            o.auth.sessionKey == seq(40, _ => 0) || Earned(env, o.frames, o.auth.sessionKey)
  {
    hide Earned, Open, Belongs, RunMem;
    ReadsKeep(env, rs);
  }

  lemma {:induction false} ReadsKeep(env: Env, rs: seq<MemRead>)
    ensures Holds(env, RunMem(env, rs).o.auth, RunMem(env, rs).o.frames)
  {
    hide FeedMem, Earned, Open, Belongs;
    if rs != [] {
      ReadsKeep(env, rs[..|rs| - 1]);
      ReadKeeps(env, RunMem(env, rs[..|rs| - 1]), rs[|rs| - 1]);
    }
  }

  lemma ReadKeeps(env: Env, s: Reader, r: MemRead)
    requires Holds(env, s.o.auth, s.o.frames)
    ensures Holds(env, FeedMem(env, s, r).o.auth, FeedMem(env, s, r).o.frames)
  {
    hide Holds, Parse, ReadMem, Stored, Normalized;
    if s.o.fate == Waiting && Roomy(s, r) {
      var mem, w := Stored(s.mem, |s.o.rest|, r.data), |s.o.rest| + |r.data|;
      ReadMemExactly(env, s.o.auth, mem, 0, w, r.beyond);
      StreamKeeps(env, s.o.auth, s.o.frames, mem[0..w]);
    }
  }
}
