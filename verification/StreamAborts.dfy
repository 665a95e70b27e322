/** When a stream reaches the assertion or the empty optional of the proof handler, in terms of the frames that
    have been handled and the replies that have been sent. */
module StreamAborts {
  import opened Wrappers
  import opened Bytes
  import opened SrpStandard
  import opened ClientWire
  import opened SecureRemotePassword
  import opened RealmList
  import opened RealmClient
  import opened Authentication
  import opened Framing

  /** The last challenge was for a known build. */
  ghost predicate LastBuildKnown(env: Env, frames: seq<bytes>) {
    if frames == [] then false
    else
      var n := |frames| - 1;
      if |frames[n]| >= 34 && frames[n][0] == 0
      then BuildKnown(env, frames[n][11] as int + 256 * (frames[n][12] as int))
      else LastBuildKnown(env, frames[..n])
  }

  /** Some challenge got a reply with an exchange, and no proof came after it. */
  predicate ExchangeOpen(frames: seq<bytes>, replies: seq<bytes>)
    requires |frames| == |replies|
    decreases |frames|
  {
    if frames == [] then false
    else
      var n := |frames| - 1;
      if frames[n] != [] && frames[n][0] == 1 then false
      else if frames[n] != [] && frames[n][0] == 0 && DecodeHello(replies[n]).Some? then true
      else ExchangeOpen(frames[..n], replies[..n])
  }

  /** The session agrees with what has been handled and sent. */
  ghost predicate Agrees(env: Env, st: Auth, frames: seq<bytes>, replies: seq<bytes>)
    requires |frames| == |replies|
  {
    && (st.expansion != Invalid <==> LastBuildKnown(env, frames))
    && (st.exchange.Some? && !st.exchange.value.used <==> ExchangeOpen(frames, replies))
  }

  lemma FrameKeepsAgreement(env: Env, st: Auth, frames: seq<bytes>, replies: seq<bytes>, frame: bytes)
    requires |frames| == |replies| && Agrees(env, st, frames, replies) && Handle(env, st, frame).Accept?
    ensures var h := Handle(env, st, frame); Agrees(env, h.auth, frames + [frame], replies + [h.reply])
  {
    hide DecodeHello, DecodeProofReply, LeValue, NameIn, ChallengeOk, NewExchange, HelloReply, FindBuild, Handle;
    var h := Handle(env, st, frame);
    AcceptedSize(env, st, frame);
    var fs, rs := frames + [frame], replies + [h.reply];
    assert fs[..|frames|] == frames && rs[..|replies|] == replies;
    if frame[0] == CMD_CHALLENGE {
      ChallengeVerdict(env, st, frame);
      NewIsUnused(env, st, frame);
    } else if frame[0] == CMD_PROOF {
      AcceptedProof(env, st, frame);
    } else {
      AcceptedRequest(env, st, frame);
    }
  }

  lemma NewIsUnused(env: Env, st: Auth, frame: bytes)
    requires frame != [] && frame[0] == CMD_CHALLENGE && Handle(env, st, frame).Accept?
    ensures var h := Handle(env, st, frame);
            DecodeHello(h.reply).Some? ==> h.auth.exchange.Some? && !h.auth.exchange.value.used
  {
    hide Handle, Number, ThirtyTwo, ServerPublic;
    ChallengeVerdict(env, st, frame);
  }

  lemma AcceptedProof(env: Env, st: Auth, frame: bytes)
    requires frame != [] && frame[0] == CMD_PROOF && Handle(env, st, frame).Accept?
    ensures var h := Handle(env, st, frame);
            && st.expansion != Invalid && h.auth.expansion == st.expansion
            && h.auth.exchange.Some? && h.auth.exchange.value.used
  {
    hide Verify, SessionVerifier, ProofReply;
  }

  lemma AcceptedRequest(env: Env, st: Auth, frame: bytes)
    requires frame != [] && frame[0] != CMD_CHALLENGE && frame[0] != CMD_PROOF && Handle(env, st, frame).Accept?
    ensures Handle(env, st, frame).auth == st && frame[0] == CMD_REALMLIST
  {
    hide Packet, Entries;
  }

  /** The next frame is a complete proof. */
  predicate ProofNext(next: bytes) {
    |next| >= 75 && next[0] == 1
  }

  /** From any session that agrees with its past. */
  lemma {:induction false} AbortsIffFrom(env: Env, st: Auth, frames: seq<bytes>, replies: seq<bytes>, input: bytes)
    requires |frames| == |replies| && Agrees(env, st, frames, replies)
    ensures var o := Parse(env, st, input);
            && |o.frames| == |o.replies| && |Joined(o.frames)| <= |input|
            && (o.fate == Aborted <==>
                  && ProofNext(input[|Joined(o.frames)|..])
                  && LastBuildKnown(env, frames + o.frames) && !ExchangeOpen(frames + o.frames, replies + o.replies))
    decreases |input|
  {
    hide LastBuildKnown, ExchangeOpen, Handle, LeValue, Known, TooLong, FrameSize, Parse, Then;
    FramesAreInput(env, st, input);
    NothingJoined();
    var o := Parse(env, st, input);
    if input == [] || InHeader(input) {
      ShortStays(env, st, input);
      NoFramesYet(env, st, frames, replies, o, input);
    } else {
      ParseRound(env, st, input);
      var size := FrameSize(input[0], if |input| >= CHALLENGE_HEADER then LeValue(input[2..4]) else 0);
      if Known(input[0]) && !TooLong(input[0], size) && size <= |input| && Handle(env, st, input[..size]).Accept? {
        var frame, h := input[..size], Handle(env, st, input[..size]);
        AcceptedSize(env, st, frame);
        FrameKeepsAgreement(env, st, frames, replies, frame);
        AbortsIffFrom(env, h.auth, frames + [frame], replies + [h.reply], input[size..]);
        AfterFrame(frame, h.reply, Parse(env, h.auth, input[size..]), frames, replies, input, size);
      } else {
        EndsWithoutFrame(env, st, input, size);
        NoFramesYet(env, st, frames, replies, o, input);
      }
    }
  }

  lemma ShortStays(env: Env, st: Auth, input: bytes)
    requires input == [] || InHeader(input)
    ensures Parse(env, st, input) == Wait(st, input) && !ProofNext(input)
  {
  }

  /** An input that does not begin with an accepted frame aborts exactly if it begins with an undefined proof. */
  lemma EndsWithoutFrame(env: Env, st: Auth, input: bytes, size: nat)
    requires input != [] && !InHeader(input)
    requires size == FrameSize(input[0], if |input| >= CHALLENGE_HEADER then LeValue(input[2..4]) else 0)
    requires !(Known(input[0]) && !TooLong(input[0], size) && size <= |input| && Handle(env, st, input[..size]).Accept?)
    ensures var o := Parse(env, st, input);
            && o.frames == [] && o.replies == []
            && (o.fate == Aborted <==>
                  ProofNext(input) && st.expansion != Invalid && !(st.exchange.Some? && !st.exchange.value.used))
  {
    hide Parse, Handle, LeValue;
    ParseRound(env, st, input);
    if size <= |input| {
      UndefinedIff(env, st, input[..size]);
      if ProofNext(input) {
        ProofOutcomes(env, st, input[..size]);
      }
    }
  }

  lemma ProofOutcomes(env: Env, st: Auth, frame: bytes)
    requires |frame| == PROOF_SIZE && frame[0] == CMD_PROOF
    ensures Handle(env, st, frame).Accept? <==> st.expansion != Invalid && st.exchange.Some? && !st.exchange.value.used
  {
    hide Verify, SessionVerifier, ProofReply;
  }

  lemma NoFramesYet(env: Env, st: Auth, frames: seq<bytes>, replies: seq<bytes>, o: Outcome, input: bytes)
    requires o.frames == [] && o.replies == [] && |frames| == |replies| && Agrees(env, st, frames, replies)
    ensures frames + o.frames == frames && replies + o.replies == replies
    ensures Joined(o.frames) == [] && input[|Joined(o.frames)|..] == input
  {
    NothingJoined();
  }

  lemma AfterFrame(frame: bytes, reply: bytes, o: Outcome, frames: seq<bytes>, replies: seq<bytes>, input: bytes, size: nat)
    requires size <= |input| && frame == input[..size] && |Joined(o.frames)| <= |input| - size
    ensures var all := Then(frame, reply, o);
            && frames + all.frames == (frames + [frame]) + o.frames
            && replies + all.replies == (replies + [reply]) + o.replies
            && Joined(all.frames) == frame + Joined(o.frames) && all.fate == o.fate
            && |Joined(all.frames)| <= |input|
            && input[|Joined(all.frames)|..] == input[size..][|Joined(o.frames)|..]
  {
    assert ([frame] + o.frames)[1..] == o.frames;
  }

  /** A stream aborts if and only if the next complete frame is a proof, the last challenge was for a known build,
      and since the last reply with an exchange, if there was one, a proof has been handled. */
  lemma StreamAbortsIff(env: Env, input: bytes)
    ensures var o := Parse(env, InitialAuth(), input);
            && |o.frames| == |o.replies| && |Joined(o.frames)| <= |input|
            && (o.fate == Aborted <==>
                  && ProofNext(input[|Joined(o.frames)|..])
                  && LastBuildKnown(env, o.frames) && !ExchangeOpen(o.frames, o.replies))
  {
    hide Parse, LastBuildKnown, ExchangeOpen;
    var o := Parse(env, InitialAuth(), input);
    StartAgrees(env);
    AbortsIffFrom(env, InitialAuth(), [], [], input);
    assert [] + o.frames == o.frames && [] + o.replies == o.replies;
  }

  lemma StartAgrees(env: Env)
    ensures Agrees(env, InitialAuth(), [], [])
  {
  }
}
