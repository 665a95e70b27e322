/** The session object as it is written: handlers that look at the read buffer in place, the read
    loop over them, and the socket's read side.  Every completed read does exactly what `FeedMem` says. */
module Sessions {
  import opened Wrappers
  import opened Bytes
  import opened InterleavedHash
  import opened SrpGroup
  import opened SrpStandard
  import opened SecureRemotePassword
  import opened ByteBuffers
  import opened MessageBuffers
  import opened RealmList
  import opened RealmClient
  import opened Authentication
  import opened Framing
  import opened FrameMemory

  /** Whatever its client is, the session's realm list fits the output buffer, and populations are four bytes. */
  ghost predicate RealmsFit(env: Env) {
    && (forall i :: 0 <= i < |env.realms| ==> |env.realms[i].population| == 4)
    && (forall st: Auth :: |EncodeEntries(st.expansion == PostBc, Entries(env.realms, ViewOf(env, st)))| + 2 < SIZE_LIMIT)
  }

  /** How a round of the read loop ends: with a handled frame, by leaving the loop, or by returning. */
  datatype Round = Handled | Break | Return

  class Session {
    const env: Env
    const buffer: MessageBuffer

    var closed: bool
    var build: nat
    var expansion: Expansion
    var srp6: Srp6?
    var sessionKey: bytes
    var accountId: nat
    var exchanges: nat

    /** The packets handed to the write queue. */
    var outbox: seq<bytes>

    /** The frames handled so far, and where reading stands. */
    ghost var frames: seq<bytes>
    ghost var fate: Fate

    ghost function CurrentAuth(): Auth
      reads this, if srp6 == null then {} else {srp6}
    {
      Auth(build, expansion, if srp6 == null then None else Some(srp6.Now()), sessionKey, accountId, exchanges)
    }

    /** The connection in the terms of the framing model. */
    ghost function Conn(): Outcome
      requires buffer.Valid()
      reads this, buffer, buffer.data, if srp6 == null then {} else {srp6}
    {
      Outcome(CurrentAuth(), frames, outbox, if fate == Waiting then buffer.Active() else [], fate)
    }

    /** The connection with the memory of its read buffer. */
    ghost function Whole(): Reader
      requires buffer.Valid()
      reads this, buffer, buffer.data, if srp6 == null then {} else {srp6}
    {
      Reader(Conn(), buffer.data[..])
    }

    /** What the memory holds, by offset from the read position. */
    ghost function Memory(beyond: Junk): Junk
      reads buffer, buffer.data
    {
      JunkAt(buffer.data[..], buffer.readPos, beyond)
    }

    /** What is left of this call of the read handler. */
    ghost function Ahead(beyond: Junk): Outcome
      requires buffer.Valid()
      reads this, buffer, buffer.data, if srp6 == null then {} else {srp6}
    {
      ReadMem(env, CurrentAuth(), buffer.data[..], buffer.readPos, buffer.writePos, beyond)
    }

    ghost predicate Valid()
      reads this, buffer
    {
      buffer.Valid() && RealmsFit(env) && (fate == Closed <==> closed)
    }

    /** A read is outstanding: little is kept, at the front of memory that has never grown, and there is
        room for more. */
    ghost predicate Armed()
      reads this, buffer
    {
      && Valid() && fate == Waiting
      && buffer.readPos == 0 && buffer.writePos < 75 && buffer.data.Length == 4096
    }

    constructor (env: Env)
      requires RealmsFit(env)
      ensures Armed() && fresh(buffer) && fresh(buffer.data) && srp6 == null
      ensures Whole() == Start() && !closed && outbox == []
    {
      this.env := env;
      buffer := new MessageBuffer(INITIAL_SIZE);
      closed := false;
      build, expansion, srp6 := 0, Invalid, null;
      sessionKey := seq(SESSION_KEY_LENGTH, _ => 0);
      accountId, exchanges := 0, 0;
      outbox, frames, fate := [], [], Waiting;
    }

    // ---------- looking at the buffer ----------

    /** The byte at an offset from the read position, received or not. */
    method Peek(i: nat, beyond: Junk) returns (b: byte)
      requires buffer.Valid()
      ensures b == Seen(buffer.Active(), i, Memory(beyond))
    {
      SeenIsAt(buffer.data[..], buffer.readPos, buffer.writePos, i, beyond);
      assert buffer.data[..][buffer.readPos..buffer.writePos] == buffer.Active();
      if buffer.readPos + i < buffer.data.Length {
        return buffer.data[buffer.readPos + i];
      }
      b := beyond(buffer.readPos + i);
    }

    method PeekBytes(from: nat, to: nat) returns (bs: bytes)
      requires buffer.Valid() && from <= to <= |buffer.Active()|
      ensures bs == buffer.Active()[from..to]
    {
      bs := buffer.data[buffer.readPos + from..buffer.readPos + to];
      assert forall k :: 0 <= k < to - from ==> bs[k] == buffer.Active()[from + k];
    }

    method SendPacket(packet: ByteBuffer)
      requires packet.Valid()
      modifies this`outbox
      ensures outbox == if packet.data == [] then old(outbox) else old(outbox) + [packet.data]
    {
      if packet.data == [] {
        return;
      }
      outbox := outbox + [packet.data];
    }

    // ---------- handlers ----------

    /** The verdict on the two lengths of a challenge does not depend on bytes that have not arrived. */
    lemma LengthsVerdict(active: bytes, size: nat, junk: Junk)
      requires active != [] && size <= |active| && size <= MAX_CHALLENGE
      requires size == FrameSize(CMD_CHALLENGE, SeenLength(active, junk))
      ensures LengthsMatch(SeenLength(active, junk), Seen(active, NAME_LENGTH_OFFSET, junk)) <==> ChallengeOk(active[..size])
    {
      var length := SeenLength(active, junk);
      var nameLength := Seen(active, NAME_LENGTH_OFFSET, junk);
      LengthsMatchMeans(length, nameLength);
      if size >= CHALLENGE_HEADER {
        SeenIsLength(active, junk);
        assert active[..size][2..4] == active[2..4];
      }
    }

    method LogonChallengeHandler(ghost size: nat, beyond: Junk) returns (ok: bool)
      requires Valid() && size <= |buffer.Active()| && size <= MAX_CHALLENGE
      requires buffer.Active() != [] && buffer.Active()[0] == CMD_CHALLENGE
      requires size == FrameSize(CMD_CHALLENGE, SeenLength(buffer.Active(), Memory(beyond)))
      modifies this`build, this`expansion, this`srp6, this`accountId, this`exchanges, this`outbox
      ensures ok ==> HandleChallenge(env, old(CurrentAuth()), old(buffer.Active()[..size])).Accept?
      ensures !ok ==> HandleChallenge(env, old(CurrentAuth()), old(buffer.Active()[..size])).Reject?
                      && CurrentAuth() == old(CurrentAuth()) && outbox == old(outbox)
      ensures ok ==> var h := HandleChallenge(env, old(CurrentAuth()), old(buffer.Active()[..size]));
                     CurrentAuth() == h.auth && outbox == old(outbox) + [h.reply]
      ensures srp6 == old(srp6) || fresh(srp6)
    {
      hide FrameSize, HandleChallenge, RealmsFit;
      ghost var active := buffer.Active();
      ghost var frame := active[..size];
      LengthsVerdict(active, size, Memory(beyond));
      var low := Peek(2, beyond);
      var high := Peek(3, beyond);
      var nameLength := Peek(NAME_LENGTH_OFFSET, beyond);
      if !LengthsMatch(low as int + 256 * (high as int), nameLength) {
        LengthsReject(env, CurrentAuth(), frame);
        return false;
      }
      ChallengeSpans(frame);
      hide ChallengeOk, LengthsMatch, FrameSize;
      var buildBytes := PeekBytes(BUILD_OFFSET, BUILD_OFFSET + 2);
      assert frame[BUILD_OFFSET..BUILD_OFFSET + 2] == buildBytes;
      var name := PeekBytes(NAME_OFFSET, NAME_OFFSET + nameLength);
      assert frame[NAME_OFFSET..NAME_OFFSET + nameLength] == name;
      AnswerChallenge(frame, LeValue(buildBytes), name);
      ok := true;
    }

    /** The part of the challenge handler that follows the comparison of the lengths. */
    method AnswerChallenge(ghost frame: bytes, clientBuild: nat, name: bytes)
      requires Valid() && ChallengeOk(frame)
      requires clientBuild == LeValue(frame[BUILD_OFFSET..BUILD_OFFSET + 2]) && name == NameIn(frame)
      modifies this`build, this`expansion, this`srp6, this`accountId, this`exchanges, this`outbox
      ensures var h := HandleChallenge(env, old(CurrentAuth()), frame);
              h.Accept? && CurrentAuth() == h.auth && outbox == old(outbox) + [h.reply]
      ensures srp6 == old(srp6) || fresh(srp6)
    {
      hide ChallengeOk, NameIn, NewExchange, FindBuild, HelloReply, ShortReply, RealmsFit;
      build := clientBuild;
      expansion := ExpansionOf(env.builds, build);
      if FindBuild(env.builds, build).None? {
        SendShort(LOGIN_VERSION_INVALID);
        return;
      }
      if name !in env.accounts {
        SendShort(LOGIN_UNKNOWN_ACCOUNT);
        return;
      }
      var account := env.accounts[name];
      accountId := account.id;
      srp6 := new Srp6(env.hash, account.username, account.salt, account.verifier, RandomFor(env, exchanges));
      NewExchangeIs(env.hash, account.username, account.salt, account.verifier, RandomFor(env, exchanges));
      exchanges := exchanges + 1;
      SendHello(srp6);
    }

    method SendShort(result: byte)
      modifies this`outbox
      ensures outbox == old(outbox) + [ShortReply(result)]
    {
      var packet := new ByteBuffer();
      packet.Put8(CMD_CHALLENGE);
      packet.Put8(0x00);
      packet.Put8(result);
      assert packet.data == ShortReply(result);
      SendPacket(packet);
    }

    method SendHello(e: Srp6)
      requires |e.s| == EPHEMERAL_KEY_LENGTH
      modifies this`outbox
      ensures outbox == old(outbox) + [HelloReply(e.Now())]
    {
      hide HelloReply;
      var packet := new ByteBuffer();
      packet.Put8(CMD_CHALLENGE);
      packet.Put8(0x00);
      WriteHello(packet, e);
      HelloRoundTrip(e.Now());
      assert packet.data != [];
      SendPacket(packet);
    }

    method WriteHello(packet: ByteBuffer, e: Srp6)
      requires packet.Valid() && packet.data == [CMD_CHALLENGE, 0x00] && |e.s| == EPHEMERAL_KEY_LENGTH
      modifies packet
      ensures packet.Valid() && packet.data == HelloReply(e.Now())
    {
      ghost var front := [CMD_CHALLENGE, 0x00, LOGIN_OK];
      packet.Put8(LOGIN_OK);
      assert packet.data == front;
      packet.Append(e.B);
      packet.Put8(1);
      packet.Append(G);
      ghost var middle := front + e.B + [1] + G;
      assert packet.data == middle;
      packet.Put8(32);
      packet.Append(N);
      assert packet.data == middle + [32] + N;
      packet.Append(e.s);
      packet.Append(VERSION_CHALLENGE);
      packet.Put8(0x00);
    }

    method SendFailedProof()
      modifies this`outbox
      ensures outbox == old(outbox) + [FailedProof()]
    {
      var packet := new ByteBuffer();
      packet.Put8(CMD_PROOF);
      packet.Put8(LOGIN_UNKNOWN_ACCOUNT);
      packet.Put16(0x0);
      ZeroWord();
      assert packet.data == FailedProof();
      SendPacket(packet);
    }

    method SendProof(serverProof: Digest)
      modifies this`outbox
      ensures outbox == old(outbox) + [ProofReply(expansion == PostBc, serverProof)]
    {
      var reply: bytes := [CMD_PROOF, 0x00] + serverProof;
      if expansion == PostBc {
        reply := reply + (LeBytes(0x00800000, 4) + LeBytes(0x00, 4) + LeBytes(0x00, 2));
      } else {
        reply := reply + LeBytes(0x00, 4);
      }
      var packet := new ByteBuffer();
      packet.Resize(|reply|);
      packet.data := reply;
      SendPacket(packet);
    }

    method LogonProofHandler() returns (ok: bool)
      requires Valid() && PROOF_SIZE <= |buffer.Active()|
      requires expansion != Invalid ==> srp6 != null && !srp6.used
      modifies this`sessionKey, this`outbox, srp6
      ensures ok ==> HandleProof(env, old(CurrentAuth()), old(buffer.Active()[..PROOF_SIZE])).Accept?
      ensures !ok ==> HandleProof(env, old(CurrentAuth()), old(buffer.Active()[..PROOF_SIZE])).Reject?
                      && CurrentAuth() == old(CurrentAuth()) && outbox == old(outbox)
      ensures ok ==> var h := HandleProof(env, old(CurrentAuth()), old(buffer.Active()[..PROOF_SIZE]));
                     CurrentAuth() == h.auth && outbox == old(outbox) + [h.reply]
    {
      hide Verify, SessionVerifier, ProofReply, FailedProof, RealmsFit;
      ghost var frame := buffer.Active()[..PROOF_SIZE];
      if expansion == Invalid {
        return false;
      }
      var A := PeekBytes(1, 33);
      var M := PeekBytes(33, 53);
      var flags := PeekBytes(74, 75);
      assert ProofA(frame) == A && ProofM(frame) == M && frame[74] == flags[0];
      var key := srp6.VerifyChallenge(env.hash, A, M);
      if key.Some? {
        sessionKey := key.value;
        if flags[0] / 4 % 2 == 1 {
          SendFailedProof();
          return true;
        }
        var serverProof := SessionVerifier(env.hash, A, M, sessionKey);
        SendProof(serverProof);
      } else {
        SendFailedProof();
      }
      ok := true;
    }

    method RealmlistHandler() returns (ok: bool)
      requires Valid()
      modifies this`outbox
      ensures ok && outbox == old(outbox) + [HandleRealmList(env, CurrentAuth()).reply]
    {
      hide Entries, Packet;
      var characters := if accountId in env.characters then env.characters[accountId] else map[];
      ghost var st := CurrentAuth();
      assert View(env.builds, build, expansion, characters) == ViewOf(env, st);
      var packet := WritePacket(env.realms, View(env.builds, build, expansion, characters));
      PacketIsNotEmpty(expansion == PostBc, Entries(env.realms, ViewOf(env, st)));
      SendPacket(packet);
      ok := true;
    }

    // ---------- reading ----------

    method CloseSocket()
      modifies this`closed, this`fate
      ensures closed && fate == Closed
    {
      closed := true;
      fate := Closed;
    }

    /** Dispatch to the handler of the command in front of the buffer. */
    method RunHandler(size: nat, beyond: Junk) returns (ok: bool)
      requires Valid() && buffer.Active() != [] && Known(buffer.Active()[0])
      requires size == FrameSize(buffer.Active()[0], SeenLength(buffer.Active(), Memory(beyond)))
      requires size <= |buffer.Active()| && !TooLong(buffer.Active()[0], size)
      requires !Handle(env, CurrentAuth(), buffer.Active()[..size]).Undefined?
      modifies this`build, this`expansion, this`srp6, this`accountId, this`exchanges, this`sessionKey, this`outbox, srp6
      ensures srp6 == old(srp6) || fresh(srp6)
      ensures ok ==> Handle(env, old(CurrentAuth()), old(buffer.Active()[..size])).Accept?
      ensures ok ==> var h := Handle(env, old(CurrentAuth()), old(buffer.Active()[..size]));
                     CurrentAuth() == h.auth && outbox == old(outbox) + [h.reply]
      ensures !ok ==> Handle(env, old(CurrentAuth()), old(buffer.Active()[..size])).Reject?
                      && CurrentAuth() == old(CurrentAuth()) && outbox == old(outbox)
    {
      hide HandleChallenge, HandleRealmList, RealmsFit;
      ghost var frame := buffer.Active()[..size];
      var command := Peek(0, beyond);
      if command == CMD_CHALLENGE {
        ChallengeOfFrame(env, CurrentAuth(), frame);
        ok := LogonChallengeHandler(size, beyond);
      } else if command == CMD_PROOF {
        assert frame[0] == CMD_PROOF;
        ProofDefined(env, CurrentAuth(), frame);
        ok := LogonProofHandler();
      } else {
        assert frame[0] == CMD_REALMLIST;
        RealmListAccepted(env, CurrentAuth());
        ok := RealmlistHandler();
      }
    }

    /** The size of the frame in front; the length field is read whether it has arrived or not. */
    method NextSize(command: byte, beyond: Junk) returns (size: nat)
      requires buffer.Valid()
      ensures size == FrameSize(command, SeenLength(buffer.Active(), Memory(beyond)))
    {
      var low := Peek(2, beyond);
      var high := Peek(3, beyond);
      size := FrameSize(command, low as int + 256 * (high as int));
    }

    /** One round of the loop of the read handler. */
    method ReadFrame(beyond: Junk) returns (round: Round)
      requires Valid() && !closed && fate == Waiting && buffer.Active() != []
      requires Ahead(beyond).fate != Aborted
      modifies this`closed, this`fate, this`frames, buffer`readPos, buffer`writePos
      modifies this`build, this`expansion, this`srp6, this`accountId, this`exchanges, this`sessionKey, this`outbox, srp6
      ensures Valid() && (srp6 == old(srp6) || fresh(srp6))
      ensures round != Round.Handled ==>
                && old(Ahead(beyond)) == Outcome(CurrentAuth(), [], [], if fate == Waiting then buffer.Active() else [], fate)
                && CurrentAuth() == old(CurrentAuth()) && frames == old(frames) && outbox == old(outbox)
                && (fate == Waiting <==> round == Break)
                && (round == Break ==> buffer.Active() == old(buffer.Active()) && Ahead(beyond) == old(Ahead(beyond)))
      ensures round == Round.Handled ==>
                && fate == Waiting && |buffer.Active()| < |old(buffer.Active())|
                && |frames| > 0 && frames[..|frames| - 1] == old(frames)
                && |outbox| > 0 && outbox[..|outbox| - 1] == old(outbox)
                && old(Ahead(beyond)) == Then(frames[|frames| - 1], outbox[|outbox| - 1], Ahead(beyond))
    {
      hide ReadMem, Handle, RealmsFit, FrameSize, TooLong, Known, SeenLength;
      AheadStops(beyond);
      var command := Peek(0, beyond);
      if !Known(command) {
        buffer.Reset();
        fate := Stopped;
        return Return;
      }
      var size := NextSize(command, beyond);
      if TooLong(command, size) {
        CloseSocket();
        return Return;
      }
      var received := buffer.ActiveSize();
      if received < size {
        return Break;
      }
      var ok := HandleNext(size, beyond);
      if !ok {
        CloseSocket();
        return Return;
      }
      round := Round.Handled;
    }

    /** HandleFrame, with what it means for the rest of the call. */
    method HandleNext(size: nat, beyond: Junk) returns (ok: bool)
      requires Valid() && buffer.Active() != [] && Known(buffer.Active()[0])
      requires size == FrameSize(buffer.Active()[0], SeenLength(buffer.Active(), Memory(beyond)))
      requires size <= |buffer.Active()| && !TooLong(buffer.Active()[0], size)
      requires Ahead(beyond).fate != Aborted
      modifies this`frames, buffer`readPos
      modifies this`build, this`expansion, this`srp6, this`accountId, this`exchanges, this`sessionKey, this`outbox, srp6
      ensures Valid() && (srp6 == old(srp6) || fresh(srp6))
      ensures !ok ==> old(Ahead(beyond)) == Ended(CurrentAuth(), Closed)
                      && CurrentAuth() == old(CurrentAuth()) && frames == old(frames) && outbox == old(outbox)
      ensures ok ==>
                && |buffer.Active()| < |old(buffer.Active())|
                && |frames| > 0 && frames[..|frames| - 1] == old(frames)
                && |outbox| > 0 && outbox[..|outbox| - 1] == old(outbox)
                && old(Ahead(beyond)) == Then(frames[|frames| - 1], outbox[|outbox| - 1], Ahead(beyond))
    {
      hide ReadMem, Handle, RealmsFit, FrameSize, TooLong, Known, SeenLength, Memory;
      AheadHandles(size, beyond);
      ok := HandleFrame(size, beyond);
    }

    /** The branches that stop before a handler runs. */
    lemma AheadStops(beyond: Junk)
      requires Valid() && buffer.Active() != []
      ensures var active, st := buffer.Active(), CurrentAuth();
              var size := FrameSize(active[0], SeenLength(active, Memory(beyond)));
              && (!Known(active[0]) ==> Ahead(beyond) == Ended(st, Stopped))
              && (Known(active[0]) && TooLong(active[0], size) ==> Ahead(beyond) == Ended(st, Closed))
              && (Known(active[0]) && !TooLong(active[0], size) && |active| < size ==> Ahead(beyond) == Wait(st, active))
    {
      hide ReadMem, Handle, FrameSize, TooLong, Known, SeenLength, JunkAt;
      assert buffer.data[..][buffer.readPos..buffer.writePos] == buffer.Active();
      RoundCases(env, CurrentAuth(), buffer.data[..], buffer.readPos, buffer.writePos, beyond);
    }

    /** The branch that runs a handler. */
    lemma AheadHandles(size: nat, beyond: Junk)
      requires Valid() && buffer.Active() != [] && Known(buffer.Active()[0])
      requires size == FrameSize(buffer.Active()[0], SeenLength(buffer.Active(), Memory(beyond)))
      requires size <= |buffer.Active()| && !TooLong(buffer.Active()[0], size)
      ensures var frame := buffer.Active()[..size];
              var h := Handle(env, CurrentAuth(), frame);
              && (h.Reject? ==> Ahead(beyond) == Ended(CurrentAuth(), Closed))
              && (h.Undefined? ==> Ahead(beyond) == Ended(CurrentAuth(), Aborted))
              && (h.Accept? ==>
                    Ahead(beyond) == Then(frame, h.reply,
                                          ReadMem(env, h.auth, buffer.data[..], buffer.readPos + size, buffer.writePos, beyond)))
    {
      hide ReadMem, Handle, FrameSize, TooLong, Known, SeenLength, JunkAt;
      assert buffer.data[..][buffer.readPos..buffer.writePos] == buffer.Active();
      RoundCases(env, CurrentAuth(), buffer.data[..], buffer.readPos, buffer.writePos, beyond);
    }

    /** Runs the handler on a complete frame and consumes it if the handler succeeds. */
    method HandleFrame(size: nat, beyond: Junk) returns (ok: bool)
      requires Valid() && buffer.Active() != [] && Known(buffer.Active()[0])
      requires size == FrameSize(buffer.Active()[0], SeenLength(buffer.Active(), Memory(beyond)))
      requires size <= |buffer.Active()| && !TooLong(buffer.Active()[0], size)
      requires !Handle(env, CurrentAuth(), buffer.Active()[..size]).Undefined?
      modifies this`frames, buffer`readPos
      modifies this`build, this`expansion, this`srp6, this`accountId, this`exchanges, this`sessionKey, this`outbox, srp6
      ensures Valid() && (srp6 == old(srp6) || fresh(srp6))
      ensures !ok ==> Handle(env, old(CurrentAuth()), old(buffer.Active()[..size])).Reject?
                      && CurrentAuth() == old(CurrentAuth()) && frames == old(frames) && outbox == old(outbox)
                      && buffer.readPos == old(buffer.readPos)
      ensures ok ==> var h := Handle(env, old(CurrentAuth()), old(buffer.Active()[..size]));
                     && h.Accept? && size > 0
                     && CurrentAuth() == h.auth && buffer.Active() == old(buffer.Active())[size..]
                     && frames == old(frames) + [old(buffer.Active()[..size])] && outbox == old(outbox) + [h.reply]
                     && buffer.readPos == old(buffer.readPos) + size
    {
      hide Handle, RealmsFit, FrameSize, TooLong, Known;
      ghost var frame := buffer.Active()[..size];
      ghost var auth := CurrentAuth();
      ok := RunHandler(size, beyond);
      if ok {
        AcceptedSize(env, auth, frame);
        buffer.ReadCompleted(size);
        frames := frames + [frame];
      }
    }

    /** The loop of the read handler; `rearm` unless the handler returns from inside the loop. */
    method RunFrames(beyond: Junk) returns (rearm: bool)
      requires Valid() && !closed && fate == Waiting
      requires Ahead(beyond).fate != Aborted
      modifies this, buffer`readPos, buffer`writePos, srp6
      ensures Valid() && (srp6 == old(srp6) || fresh(srp6)) && (rearm <==> fate == Waiting)
      ensures Conn() == Behind(old(frames), old(outbox), old(Ahead(beyond)))
      ensures rearm ==> Ahead(beyond) == Wait(CurrentAuth(), buffer.Active())
    {
      hide ReadMem, RealmsFit, Behind;
      ghost var goal := Behind(frames, outbox, Ahead(beyond));
      var received := buffer.ActiveSize();
      while received > 0
        invariant Valid() && received == |buffer.Active()|
        invariant !closed && fate == Waiting
        invariant srp6 == old(srp6) || fresh(srp6)
        invariant Ahead(beyond).fate != Aborted
        invariant goal == Behind(frames, outbox, Ahead(beyond))
        decreases |buffer.Active()|
      {
        ghost var done, sent := frames, outbox;
        var round := ReadFrame(beyond);
        if round != Round.Handled {
          NothingMore(frames, outbox, CurrentAuth(), if fate == Waiting then buffer.Active() else [], fate);
          assert round == Break ==> Ahead(beyond) == Wait(CurrentAuth(), buffer.Active());
          return round == Break;
        }
        OneMore(done, sent, frames, outbox, Ahead(beyond));
        received := buffer.ActiveSize();
      }
      EmptyMem(env, CurrentAuth(), buffer.data[..], buffer.readPos, beyond);
      NothingMore(frames, outbox, CurrentAuth(), [], Waiting);
      rearm := true;
    }

    /** The read handler.  What it leaves behind is what the loop of the framing model computes. */
    method OnRead(beyond: Junk)
      requires Valid() && !closed && fate == Waiting && buffer.data.Length == 4096
      requires Ahead(beyond).fate != Aborted
      modifies this, buffer, buffer.data, srp6
      ensures Valid() && buffer.data == old(buffer.data) && (srp6 == old(srp6) || fresh(srp6))
      ensures var o := old(Ahead(beyond));
              Conn() == o.(frames := old(frames) + o.frames, replies := old(outbox) + o.replies)
      ensures fate == Waiting ==> Armed()
      ensures buffer.data[..] == if fate == Waiting then Normalized(old(buffer.data[..]), buffer.Active()) else old(buffer.data[..])
    {
      hide ReadMem, RealmsFit;
      var rearm := RunFrames(beyond);
      if rearm {
        AsyncRead(beyond);
      }
    }

    /** Arms another read: the kept bytes move to the front, where there is always room behind them. */
    method AsyncRead(ghost beyond: Junk)
      requires Valid() && !closed && fate == Waiting && buffer.data.Length == 4096
      requires Ahead(beyond) == Wait(CurrentAuth(), buffer.Active())
      modifies buffer, buffer.data
      ensures Armed() && buffer.data == old(buffer.data) && buffer.Active() == old(buffer.Active())
      ensures buffer.data[..] == Normalized(old(buffer.data[..]), old(buffer.Active()))
    {
      hide ReadMem, RealmsFit;
      if closed {
        return;
      }
      KeptIsLittle(beyond);
      hide Ahead;
      buffer.Normalize();
      buffer.EnsureFreeSpace();
    }

    lemma KeptIsLittle(beyond: Junk)
      requires Valid() && Ahead(beyond) == Wait(CurrentAuth(), buffer.Active())
      ensures |buffer.Active()| < 75
    {
      hide ReadMem, Parse, JunkAt, RealmsFit;
      assert buffer.data[..][buffer.readPos..buffer.writePos] == buffer.Active();
      ReadMemExactly(env, CurrentAuth(), buffer.data[..], buffer.readPos, buffer.writePos, beyond);
      LittleIsKept(env, CurrentAuth(), buffer.Active());
    }

    /** A completed read: the operating system has put the bytes behind the write position. */
    method Receive(received: bytes, beyond: Junk)
      requires Armed() && |received| <= buffer.data.Length - buffer.writePos
      requires FeedMem(env, Whole(), MemRead(received, beyond)).o.fate != Aborted
      modifies this, buffer, buffer.data, srp6
      ensures Valid() && buffer.data == old(buffer.data) && (srp6 == old(srp6) || fresh(srp6))
      ensures Whole() == FeedMem(env, old(Whole()), MemRead(received, beyond))
      ensures fate == Waiting ==> Armed()
    {
      hide ReadMem, RealmsFit, FeedMem, Stored, Normalized;
      ghost var s := Whole();
      FeedMemIs(env, s, MemRead(received, beyond));
      buffer.Store(received);
      StoredIs(s.mem, |s.o.rest|, received);
      assert buffer.data[..] == Stored(s.mem, |s.o.rest|, received);
      buffer.WriteCompleted(|received|);
      OnRead(beyond);
    }

    /** A failed read closes the connection. */
    method ReceiveError()
      requires Armed()
      modifies this`closed, this`fate
      ensures Valid() && fate == Closed && frames == old(frames) && outbox == old(outbox)
    {
      CloseSocket();
    }
  }

  /** An outcome with the frames and replies of earlier rounds in front. */
  function Behind(frames: seq<bytes>, replies: seq<bytes>, o: Outcome): Outcome {
    o.(frames := frames + o.frames, replies := replies + o.replies)
  }

  lemma NothingMore(frames: seq<bytes>, replies: seq<bytes>, st: Auth, rest: bytes, fate: Fate)
    ensures Behind(frames, replies, Outcome(st, [], [], rest, fate)) == Outcome(st, frames, replies, rest, fate)
  {
    assert frames + [] == frames && replies + [] == replies;
  }

  lemma OneMore(done: seq<bytes>, sent: seq<bytes>, frames: seq<bytes>, replies: seq<bytes>, o: Outcome)
    requires |frames| > 0 && frames[..|frames| - 1] == done
    requires |replies| > 0 && replies[..|replies| - 1] == sent
    ensures Behind(done, sent, Then(frames[|frames| - 1], replies[|replies| - 1], o)) == Behind(frames, replies, o)
  {
    var f, r := frames[|frames| - 1], replies[|replies| - 1];
    assert frames == done + [f] && replies == sent + [r];
    assert done + ([f] + o.frames) == frames + o.frames;
    assert sent + ([r] + o.replies) == replies + o.replies;
  }

  /** One round of the loop, by the branch it takes, in terms of the active bytes. */
  lemma RoundCases(env: Env, st: Auth, mem: bytes, r: nat, w: nat, beyond: Junk)
    requires r < w <= |mem|
    ensures var o := ReadMem(env, st, mem, r, w, beyond);
            var active := mem[r..w];
            var size := FrameSize(active[0], SeenLength(active, JunkAt(mem, r, beyond)));
            && (!Known(active[0]) ==> o == Ended(st, Stopped))
            && (Known(active[0]) && TooLong(active[0], size) ==> o == Ended(st, Closed))
            && (Known(active[0]) && !TooLong(active[0], size) && |active| < size ==> o == Wait(st, active))
            && (Known(active[0]) && !TooLong(active[0], size) && size <= |active| ==>
                  var h := Handle(env, st, active[..size]);
                  && (h.Reject? ==> o == Ended(st, Closed))
                  && (h.Undefined? ==> o == Ended(st, Aborted))
                  && (h.Accept? ==> o == Then(active[..size], h.reply, ReadMem(env, h.auth, mem, r + size, w, beyond))))
  {
    hide Handle, ReadMem, FrameSize, SeenLength, JunkAt, TooLong, Known;
    MemRound(env, st, mem, r, w, beyond);
    var active := mem[r..w];
    var size := FrameSize(active[0], SeenLength(active, JunkAt(mem, r, beyond)));
    assert active[0] == mem[r];
    if size <= |active| {
      assert mem[r..r + size] == active[..size];
    }
  }

  lemma ZeroWord()
    ensures LeBytes(0, 2) == [0, 0]
  {
    assert LeBytes(0, 1) == [0];
  }

  lemma PacketIsNotEmpty(post: bool, es: seq<Entry>)
    ensures Packet(post, es) != []
  {
  }

  lemma LengthsReject(env: Env, st: Auth, frame: bytes)
    requires !ChallengeOk(frame)
    ensures HandleChallenge(env, st, frame) == Reject
  {
  }

  lemma ChallengeOfFrame(env: Env, st: Auth, frame: bytes)
    requires frame == [] || frame[0] == CMD_CHALLENGE
    ensures Handle(env, st, frame) == HandleChallenge(env, st, frame)
  {
  }

  lemma ProofDefined(env: Env, st: Auth, frame: bytes)
    requires |frame| == PROOF_SIZE && frame[0] == CMD_PROOF && !Handle(env, st, frame).Undefined?
    ensures Handle(env, st, frame) == HandleProof(env, st, frame)
    ensures st.expansion != Invalid ==> st.exchange.Some? && !st.exchange.value.used
  {
  }

  lemma RealmListAccepted(env: Env, st: Auth)
    ensures HandleRealmList(env, st).Accept? && HandleRealmList(env, st).auth == st
  {
  }

  // ---------- realm lists that fit ----------

  function PowerOfTen(digits: nat): (p: nat)
    ensures p >= 1
  {
    if digits == 0 then 1 else 10 * PowerOfTen(digits - 1)
  }

  lemma {:induction false} DecimalLength(n: nat, digits: nat)
    requires digits > 0 && n < PowerOfTen(digits)
    ensures |Decimal(n)| <= digits
  {
    if n >= 10 {
      assert digits > 1 by { assert PowerOfTen(1) == 10 * PowerOfTen(0); }
      DecimalLength(n / 10, digits - 1);
    }
  }

  /** A condition on the tables alone: version numbers have at most ten digits, as 32-bit numbers do, names and
      addresses are of bounded length, and there are not too many realms. */
  predicate SmallTables(env: Env, longest: nat) {
    && (forall i :: 0 <= i < |env.realms| ==>
          |env.realms[i].population| == 4 && |env.realms[i].name| + |env.realms[i].address| <= longest)
    && (forall b :: b in env.builds ==>
          b.major < PowerOfTen(10) && b.minor < PowerOfTen(10) && b.revision < PowerOfTen(10))
    && |env.realms| * (longest + 60) + 2 < 10000000
  }

  lemma SmallEntry(r: Realm, v: View, post: bool, longest: nat)
    requires |r.population| == 4 && |r.name| + |r.address| <= longest
    requires forall b :: b in v.builds ==>
               b.major < PowerOfTen(10) && b.minor < PowerOfTen(10) && b.revision < PowerOfTen(10)
    ensures |EncodeEntry(post, EntryOf(r, v))| <= longest + 60
  {
    hide ShownFlags, HasBuild, PowerOfTen, Decimal, LeBytes;
    var info := FindBuild(v.builds, r.build);
    if info.Some? {
      DecimalLength(info.value.major, 10);
      DecimalLength(info.value.minor, 10);
      DecimalLength(info.value.revision, 10);
    }
  }

  lemma {:induction false} SmallEntries(realms: seq<Realm>, v: View, post: bool, longest: nat)
    requires forall i :: 0 <= i < |realms| ==>
               |realms[i].population| == 4 && |realms[i].name| + |realms[i].address| <= longest
    requires forall b :: b in v.builds ==>
               b.major < PowerOfTen(10) && b.minor < PowerOfTen(10) && b.revision < PowerOfTen(10)
    ensures |EncodeEntries(post, Entries(realms, v))| <= |realms| * (longest + 60)
  {
    hide EncodeEntry, EntryOf, Visible;
    if realms != [] {
      var front, last := realms[..|realms| - 1], realms[|realms| - 1];
      SmallEntries(front, v, post, longest);
      SmallEntry(last, v, post, longest);
      assert |realms| * (longest + 60) == |front| * (longest + 60) + (longest + 60);
      if Visible(last, v.builds, v.clientBuild) {
        EncodeEntriesAppend(post, Entries(front, v), EntryOf(last, v));
      } else {
        assert Entries(front, v) + [] == Entries(front, v);
      }
    }
  }

  /** Every session over such tables may be created. */
  lemma SmallTablesFit(env: Env, longest: nat)
    requires SmallTables(env, longest)
    ensures RealmsFit(env)
  {
    forall st: Auth ensures |EncodeEntries(st.expansion == PostBc, Entries(env.realms, ViewOf(env, st)))| + 2 < SIZE_LIMIT {
      SmallEntries(env.realms, ViewOf(env, st), st.expansion == PostBc, longest);
    }
  }

  /** For example a thousand realms with names and addresses of a thousand bytes, of any build that the table
      knows or not. */
  lemma ManyRealmsFit(env: Env)
    requires |env.realms| <= 1000
    requires forall i :: 0 <= i < |env.realms| ==>
               |env.realms[i].population| == 4 && |env.realms[i].name| + |env.realms[i].address| <= 1000
    requires forall b :: b in env.builds ==> b.major < 256 && b.minor < 256 && b.revision < 256
    ensures RealmsFit(env)
  {
    assert PowerOfTen(10) >= 256 by {
      assert PowerOfTen(10) == 10 * PowerOfTen(9) && PowerOfTen(9) == 10 * PowerOfTen(8) && PowerOfTen(8) == 10 * PowerOfTen(7);
    }
    assert |env.realms| * (1000 + 60) <= 1000 * (1000 + 60);
    SmallTablesFit(env, 1000);
  }

  lemma OneRealmFits(h: Hash)
    ensures RealmsFit(Env(h, map[], [], [Plain(0, 0)], map[], []))
  {
    ManyRealmsFit(Env(h, map[], [], [Plain(0, 0)], map[], []));
  }
}
