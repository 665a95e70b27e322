/** Cutting the byte stream into frames.  `Parse` is the reference: it looks at a complete stream and
    asks for a length field only when that field has arrived.  `ReadLoop` is one call of the read
    handler: it reads the length field of a challenge even when the field has not arrived yet, and sees
    whatever bytes lie behind the received ones. */
module Framing {
  import opened Bytes
  import opened ClientWire
  import opened RealmList
  import opened RealmClient
  import opened Authentication

  /** Waiting: another read is armed.  Stopped: an unknown command ended the reading.  Aborted: a proof
      without an unused exchange. */
  datatype Fate = Waiting | Closed | Stopped | Aborted

  /** Handled frames with their replies, and the bytes kept for the next read, if there is one. */
  datatype Outcome = Outcome(auth: Auth, frames: seq<bytes>, replies: seq<bytes>, rest: bytes, fate: Fate)

  function Ended(st: Auth, fate: Fate): Outcome {
    Outcome(st, [], [], [], fate)
  }

  function Wait(st: Auth, rest: bytes): Outcome {
    Outcome(st, [], [], rest, Waiting)
  }

  function Then(frame: bytes, reply: bytes, o: Outcome): Outcome {
    o.(frames := [frame] + o.frames, replies := [reply] + o.replies)
  }

  /** The frame size in 16-bit arithmetic; `length` matters for a challenge only. */
  function FrameSize(command: byte, length: nat): (size: nat)
    ensures size < 65536
  {
    if command == CMD_CHALLENGE then (CHALLENGE_HEADER + length) % 65536
    else if command == CMD_PROOF then PROOF_SIZE
    else REALMLIST_SIZE
  }

  predicate TooLong(command: byte, size: nat) {
    command == CMD_CHALLENGE && size > MAX_CHALLENGE
  }

  /** The challenge is the only frame that can be shorter than its header: its size can wrap. */
  lemma AcceptedSize(env: Env, st: Auth, frame: bytes)
    requires Handle(env, st, frame).Accept?
    ensures |frame| > 0
    ensures frame[0] == CMD_CHALLENGE ==>
              |frame| >= NAME_OFFSET && |frame| == NAME_OFFSET + frame[NAME_LENGTH_OFFSET]
              && LeValue(frame[2..4]) == 30 + frame[NAME_LENGTH_OFFSET] as int
    ensures frame[0] == CMD_PROOF ==> |frame| == PROOF_SIZE
  {
    if frame[0] == CMD_CHALLENGE {
      ChallengeSpans(frame);
    }
  }

  // ---------- the reference ----------

  function Parse(env: Env, st: Auth, input: bytes): Outcome
    decreases |input|
  {
    if input == [] then Wait(st, [])
    else if !Known(input[0]) then Ended(st, Stopped)
    else if input[0] == CMD_CHALLENGE && |input| < CHALLENGE_HEADER then Wait(st, input)
    else
      var size := FrameSize(input[0], if |input| >= CHALLENGE_HEADER then LeValue(input[2..4]) else 0);
      if TooLong(input[0], size) then Ended(st, Closed)
      else if |input| < size then Wait(st, input)
      else match Handle(env, st, input[..size])
        case Reject => Ended(st, Closed)
        case Undefined => Ended(st, Aborted)
        case Accept(st1, reply) =>
          assert size > 0 by { AcceptedSize(env, st, input[..size]); }
          Then(input[..size], reply, Parse(env, st1, input[size..]))
  }

  // ---------- one call of the read handler ----------

  /** What the bytes behind the received ones happen to contain, by offset from the read position.  They
      matter in the last round of a call only. */
  type Junk = nat -> byte

  function Seen(active: bytes, i: nat, junk: Junk): byte {
    if i < |active| then active[i] else junk(i)
  }

  function SeenLength(active: bytes, junk: Junk): nat {
    Seen(active, 2, junk) as int + 256 * (Seen(active, 3, junk) as int)
  }

  function ReadLoop(env: Env, st: Auth, active: bytes, junk: Junk): Outcome
    decreases |active|
  {
    if active == [] then Wait(st, [])
    else if !Known(active[0]) then Ended(st, Stopped)
    else
      var size := FrameSize(active[0], SeenLength(active, junk));
      if TooLong(active[0], size) then Ended(st, Closed)
      else if |active| < size then Wait(st, active)
      else match Handle(env, st, active[..size])
        case Reject => Ended(st, Closed)
        case Undefined => Ended(st, Aborted)
        case Accept(st1, reply) =>
          assert size > 0 by { AcceptedSize(env, st, active[..size]); }
          Then(active[..size], reply, ReadLoop(env, st1, active[size..], junk))
  }

  // ---------- one call against the reference ----------

  /** The call ends inside the first four bytes of a challenge. */
  predicate InHeader(rest: bytes) {
    0 < |rest| < CHALLENGE_HEADER && rest[0] == CMD_CHALLENGE
  }

  /** The length read too early makes the code wait, as it should. */
  predicate Fits(rest: bytes, junk: Junk) {
    |rest| < FrameSize(CMD_CHALLENGE, SeenLength(rest, junk)) <= MAX_CHALLENGE
  }

  /** The effect of one read: the reference's, except that a length read too early can close. */
  function Misread(o: Outcome, junk: Junk): Outcome {
    if o.fate == Waiting && InHeader(o.rest) && !Fits(o.rest, junk) then o.(rest := [], fate := Closed) else o
  }

  lemma SeenIsLength(active: bytes, junk: Junk)
    requires |active| >= CHALLENGE_HEADER
    ensures SeenLength(active, junk) == LeValue(active[2..4])
  {
    TwoBytesValue(active[2..4]);
  }

  /** A challenge frame that is shorter than its header is refused. */
  lemma ShortChallengeRefused(env: Env, st: Auth, frame: bytes)
    requires |frame| < CHALLENGE_HEADER && (frame == [] || frame[0] == CMD_CHALLENGE)
    ensures Handle(env, st, frame) == Reject
  {
  }

  /** One call of the read handler, for every content of the unreceived bytes, exactly. */
  lemma {:induction false} ReadLoopExactly(env: Env, st: Auth, active: bytes, junk: Junk)
    ensures ReadLoop(env, st, active, junk) == Misread(Parse(env, st, active), junk)
    decreases |active|
  {
    hide Handle, Known;
    if active != [] && Known(active[0]) {
      var size := FrameSize(active[0], SeenLength(active, junk));
      if active[0] == CMD_CHALLENGE && |active| < CHALLENGE_HEADER {
        if size <= |active| {
          assert active[..size] == [] || active[..size][0] == active[0];
          ShortChallengeRefused(env, st, active[..size]);
        }
      } else {
        if active[0] == CMD_CHALLENGE {
          SeenIsLength(active, junk);
        }
        if !TooLong(active[0], size) && size <= |active| && Handle(env, st, active[..size]).Accept? {
          AcceptedSize(env, st, active[..size]);
          ReadLoopExactly(env, Handle(env, st, active[..size]).auth, active[size..], junk);
        }
      }
    }
  }

  /** One call agrees with the reference on the received bytes if and only if it does not end inside the
      header of a challenge, or the bytes behind make up a length that still asks for more. */
  lemma ReadAgreesIff(env: Env, st: Auth, active: bytes, junk: Junk)
    ensures var o := Parse(env, st, active);
            ReadLoop(env, st, active, junk) == o <==> !(o.fate == Waiting && InHeader(o.rest)) || Fits(o.rest, junk)
  {
    ReadLoopExactly(env, st, active, junk);
  }

  /** One round of the reference on a frame whose header has arrived, by the branch it takes. */
  lemma ParseRound(env: Env, st: Auth, input: bytes)
    requires input != [] && !InHeader(input)
    ensures var o := Parse(env, st, input);
            var size := FrameSize(input[0], if |input| >= CHALLENGE_HEADER then LeValue(input[2..4]) else 0);
            && (!Known(input[0]) ==> o == Ended(st, Stopped))
            && (Known(input[0]) && TooLong(input[0], size) ==> o == Ended(st, Closed))
            && (Known(input[0]) && !TooLong(input[0], size) && |input| < size ==> o == Wait(st, input))
            && (Known(input[0]) && !TooLong(input[0], size) && size <= |input| ==>
                  var h := Handle(env, st, input[..size]);
                  && (h.Reject? ==> o == Ended(st, Closed))
                  && (h.Undefined? ==> o == Ended(st, Aborted))
                  && (h.Accept? ==> o == Then(input[..size], h.reply, Parse(env, h.auth, input[size..]))))
  {
    hide Handle, FrameSize, TooLong, Known, LeValue;
  }

  /** What the reference makes of a complete frame at the front of its input. */
  ghost predicate FrameTaken(env: Env, st: Auth, input: bytes, size: nat)
    requires size <= |input|
  {
    match Handle(env, st, input[..size])
    case Reject => Parse(env, st, input) == Outcome(st, [], [], [], Closed)
    case Undefined => Parse(env, st, input) == Outcome(st, [], [], [], Aborted)
    case Accept(st1, reply) =>
      var rest := Parse(env, st1, input[size..]);
      Parse(env, st, input) == rest.(frames := [input[..size]] + rest.frames, replies := [reply] + rest.replies)
  }

  /** One round of the reference, in the numbers of the protocol: 0 is a challenge, whose third to fourth byte count
      what follows them, in 16 bits, and which has at most 51 bytes; 1 is a proof of 75 bytes, 16 a request of 5, and
      any other command ends the reading. */
  lemma RoundInNumbers(env: Env, st: Auth, input: bytes)
    requires input != []
    ensures input[0] != 0 && input[0] != 1 && input[0] != 16 ==> Parse(env, st, input) == Outcome(st, [], [], [], Stopped)
    ensures input[0] == 1 ==>
              if |input| < 75 then Parse(env, st, input) == Outcome(st, [], [], input, Waiting) else FrameTaken(env, st, input, 75)
    ensures input[0] == 16 ==>
              if |input| < 5 then Parse(env, st, input) == Outcome(st, [], [], input, Waiting) else FrameTaken(env, st, input, 5)
    ensures input[0] == 0 && |input| < 4 ==> Parse(env, st, input) == Outcome(st, [], [], input, Waiting)
    ensures input[0] == 0 && |input| >= 4 ==>
              var size := (4 + input[2] as int + 256 * (input[3] as int)) % 65536;
              if size > 51 then Parse(env, st, input) == Outcome(st, [], [], [], Closed)
              else if |input| < size then Parse(env, st, input) == Outcome(st, [], [], input, Waiting)
              else FrameTaken(env, st, input, size)
  {
    hide Handle, Parse, LeValue;
    if InHeader(input) {
      HeaderWaits(env, st, input);
    } else {
      ParseRound(env, st, input);
      if |input| >= 4 {
        TwoBytesValue(input[2..4]);
      }
    }
  }

  /** The packed challenge of a client is handled, whatever follows it, if its name has at most 17 bytes; a longer
      name closes the connection before any handler sees it. */
  lemma ChallengeTaken(env: Env, st: Auth, v: Visit, rest: bytes)
    requires WellFormed(v)
    ensures var c := Challenge(v);
            var o, h := Parse(env, st, c + rest), Handle(env, st, c);
            && (|v.name| <= 17 ==>
                  && h.Accept? && o == Then(c, h.reply, Parse(env, h.auth, rest))
                  && o.frames != [] && o.replies != [] && o.frames[0] == c && o.replies[0] == h.reply)
            && (|v.name| > 17 ==> o == Outcome(st, [], [], [], Closed))
  {
    hide Handle, Parse, Challenge;
    var c := Challenge(v);
    ChallengeIsAgreeing(v);
    ChallengeVerdict(env, st, c);
    RoundInNumbers(env, st, c + rest);
    assert c[2] as int + 256 * (c[3] as int) == 30 + |v.name|;
    assert (c + rest)[..34 + |v.name|] == c && (c + rest)[34 + |v.name|..] == rest;
  }

  lemma HeaderWaits(env: Env, st: Auth, input: bytes)
    requires InHeader(input)
    ensures Parse(env, st, input) == Wait(st, input)
  {
  }

  /** The loop terminates and never keeps a complete frame back: fewer than 75 bytes stay unconsumed
      when another read is armed. */
  lemma {:induction false} LittleIsKept(env: Env, st: Auth, input: bytes)
    ensures Parse(env, st, input).fate == Waiting ==> |Parse(env, st, input).rest| < 75
    ensures Parse(env, st, input).fate != Waiting ==> Parse(env, st, input).rest == []
    decreases |input|
  {
    hide Handle, Known;
    if input != [] && Known(input[0]) && !(input[0] == CMD_CHALLENGE && |input| < CHALLENGE_HEADER) {
      var size := FrameSize(input[0], if |input| >= CHALLENGE_HEADER then LeValue(input[2..4]) else 0);
      if !TooLong(input[0], size) && size <= |input| && Handle(env, st, input[..size]).Accept? {
        AcceptedSize(env, st, input[..size]);
        LittleIsKept(env, Handle(env, st, input[..size]).auth, input[size..]);
      }
    }
  }

  // ---------- conservation of bytes ----------

  /** The frames and the kept bytes are exactly the input, in order, while reading goes on; in every
      case the frames are a prefix of the input. */
  lemma {:induction false} FramesAreInput(env: Env, st: Auth, input: bytes)
    ensures var o := Parse(env, st, input);
            && Joined(o.frames) <= input
            && (o.fate == Waiting ==> Joined(o.frames) + o.rest == input)
    ensures |Parse(env, st, input).frames| == |Parse(env, st, input).replies|
    decreases |input|
  {
    hide Handle, Known, Joined;
    NothingJoined();
    if input != [] && Known(input[0]) && !(input[0] == CMD_CHALLENGE && |input| < CHALLENGE_HEADER) {
      var size := FrameSize(input[0], if |input| >= CHALLENGE_HEADER then LeValue(input[2..4]) else 0);
      if !TooLong(input[0], size) && size <= |input| && Handle(env, st, input[..size]).Accept? {
        AcceptedSize(env, st, input[..size]);
        var o := Parse(env, Handle(env, st, input[..size]).auth, input[size..]);
        FramesAreInput(env, Handle(env, st, input[..size]).auth, input[size..]);
        JoinedFirst(input, size, o.frames, o.rest);
      }
    }
  }

  /** The bounds on handled frames: a challenge has 34 to 51 bytes and a length field of 30 to 47 that agrees with
      its name length, and the other frames have their fixed sizes. */
  predicate Sized(frame: bytes) {
    && frame != [] && frame[0] in {0, 1, 16}
    && (frame[0] == 0 ==>
          && 34 <= |frame| <= 51 && |frame| == 34 + frame[33] as int
          && frame[2] as int + 256 * (frame[3] as int) == |frame| - 4)
    && (frame[0] == 1 ==> |frame| == 75)
    && (frame[0] == 16 ==> |frame| == 5)
  }

  lemma {:induction false} FramesAreSized(env: Env, st: Auth, input: bytes)
    ensures forall f :: f in Parse(env, st, input).frames ==> Sized(f)
    decreases |input|
  {
    hide Handle, LeValue, Sized, Parse;
    if input == [] {
      EmptyStream(env, st);
    } else if InHeader(input) {
      HeaderWaits(env, st, input);
    } else {
      ParseRound(env, st, input);
      var size := FrameSize(input[0], if |input| >= CHALLENGE_HEADER then LeValue(input[2..4]) else 0);
      if Known(input[0]) && !TooLong(input[0], size) && size <= |input| && Handle(env, st, input[..size]).Accept? {
        AcceptedIsSized(env, st, input, size);
        FramesAreSized(env, Handle(env, st, input[..size]).auth, input[size..]);
      }
    }
  }

  lemma AcceptedIsSized(env: Env, st: Auth, input: bytes, size: nat)
    requires input != [] && !InHeader(input) && size <= |input| && Known(input[0]) && !TooLong(input[0], size)
    requires size == FrameSize(input[0], if |input| >= CHALLENGE_HEADER then LeValue(input[2..4]) else 0)
    requires Handle(env, st, input[..size]).Accept?
    ensures Sized(input[..size]) && size > 0
  {
    hide Handle, LeValue;
    AcceptedSize(env, st, input[..size]);
    if input[0] == CMD_CHALLENGE {
      TwoBytesValue(input[..size][2..4]);
    }
  }

  lemma NothingJoined()
    ensures Joined([]) == []
  {
  }

  lemma JoinedFirst(input: bytes, size: nat, frames: seq<bytes>, rest: bytes)
    requires size <= |input| && Joined(frames) <= input[size..]
    ensures Joined([input[..size]] + frames) <= input
    ensures Joined(frames) + rest == input[size..] ==> Joined([input[..size]] + frames) + rest == input
  {
    var all := [input[..size]] + frames;
    assert all[1..] == frames;
    assert Joined(all) == input[..size] + Joined(frames);
    assert input == input[..size] + input[size..];
  }

  function Joined(parts: seq<bytes>): bytes {
    if parts == [] then [] else parts[0] + Joined(parts[1..])
  }

  // ---------- reading on ----------

  /** What reading on with the bytes b makes of an outcome. */
  function Resume(env: Env, o: Outcome, b: bytes): Outcome {
    if o.fate != Waiting then o
    else
      var p := Parse(env, o.auth, o.rest + b);
      p.(frames := o.frames + p.frames, replies := o.replies + p.replies)
  }

  lemma ThenResume(env: Env, frame: bytes, reply: bytes, o: Outcome, b: bytes)
    ensures Resume(env, Then(frame, reply, o), b) == Then(frame, reply, Resume(env, o, b))
  {
    hide Parse;
    if o.fate == Waiting {
      var p := Parse(env, o.auth, o.rest + b);
      assert ([frame] + o.frames) + p.frames == [frame] + (o.frames + p.frames);
      assert ([reply] + o.replies) + p.replies == [reply] + (o.replies + p.replies);
    }
  }

  lemma NothingBefore(env: Env, st: Auth, rest: bytes, b: bytes)
    ensures Resume(env, Wait(st, rest), b) == Parse(env, st, rest + b)
  {
    hide Parse;
    var p := Parse(env, st, rest + b);
    assert [] + p.frames == p.frames && [] + p.replies == p.replies;
  }

  /** Parsing two pieces together is parsing the first and reading on with the second. */
  lemma {:induction false} ParseResumes(env: Env, st: Auth, a: bytes, b: bytes)
    ensures Parse(env, st, a + b) == Resume(env, Parse(env, st, a), b)
    decreases |a|
  {
    hide Handle, Known, Resume;
    if a == [] {
      NothingBefore(env, st, a, b);
    } else if !Known(a[0]) {
      EndedStays(env, Ended(st, Stopped), b);
    } else if a[0] == CMD_CHALLENGE && |a| < CHALLENGE_HEADER {
      NothingBefore(env, st, a, b);
    } else {
      var size := FrameSize(a[0], if |a| >= CHALLENGE_HEADER then LeValue(a[2..4]) else 0);
      assert |a| >= CHALLENGE_HEADER ==> (a + b)[2..4] == a[2..4];
      if TooLong(a[0], size) {
        EndedStays(env, Ended(st, Closed), b);
      } else if |a| < size {
        NothingBefore(env, st, a, b);
      } else {
        assert (a + b)[..size] == a[..size];
        match Handle(env, st, a[..size]) {
          case Reject => EndedStays(env, Ended(st, Closed), b);
          case Undefined => EndedStays(env, Ended(st, Aborted), b);
          case Accept(st1, reply) =>
            AcceptedSize(env, st, a[..size]);
            assert (a + b)[size..] == a[size..] + b;
            ParseResumes(env, st1, a[size..], b);
            ThenResume(env, a[..size], reply, Parse(env, st1, a[size..]), b);
        }
      }
    }
  }

  lemma EndedStays(env: Env, o: Outcome, b: bytes)
    requires o.fate != Waiting
    ensures Resume(env, o, b) == o
  {
  }

  // ---------- any number of reads ----------

  /** One completed read: its bytes, and what lies behind them. */
  datatype Read = Read(data: bytes, junk: Junk)

  function Stream(chunks: seq<Read>): bytes {
    if chunks == [] then [] else Stream(chunks[..|chunks| - 1]) + chunks[|chunks| - 1].data
  }

  /** One more read, as long as reading has not ended. */
  function Feed(env: Env, o: Outcome, r: Read): Outcome {
    if o.fate != Waiting then o
    else
      var p := ReadLoop(env, o.auth, o.rest + r.data, r.junk);
      p.(frames := o.frames + p.frames, replies := o.replies + p.replies)
  }

  function RunReads(env: Env, st: Auth, chunks: seq<Read>): Outcome {
    if chunks == [] then Wait(st, []) else Feed(env, RunReads(env, st, chunks[..|chunks| - 1]), chunks[|chunks| - 1])
  }

  /** A read is safe if the stream up to its end does not stop inside the header of a challenge, or the
      bytes behind it happen to make up a length that asks for more. */
  predicate SafeRead(env: Env, st: Auth, chunks: seq<Read>)
    requires chunks != []
  {
    var o := Parse(env, st, Stream(chunks));
    !(o.fate == Waiting && InHeader(o.rest)) || Fits(o.rest, chunks[|chunks| - 1].junk)
  }

  lemma FeedExactly(env: Env, o: Outcome, r: Read)
    ensures Feed(env, o, r) == if o.fate == Waiting then Misread(Resume(env, o, r.data), r.junk) else o
  {
    hide Parse, ReadLoop;
    if o.fate == Waiting {
      ReadLoopExactly(env, o.auth, o.rest + r.data, r.junk);
    }
  }

  /** Framing does not depend on how the stream is split as long as every read is safe: frames, replies,
      session, kept bytes and fate are those of the reference on the concatenated stream. */
  lemma {:induction false} SafeRunsAgree(env: Env, st: Auth, chunks: seq<Read>)
    requires forall k :: 0 < k <= |chunks| ==> SafeRead(env, st, chunks[..k])
    ensures RunReads(env, st, chunks) == Parse(env, st, Stream(chunks))
  {
    hide Parse, ReadLoop, Fits;
    if chunks == [] {
      EmptyStream(env, st);
    } else {
      var n := |chunks|;
      var before := chunks[..n - 1];
      forall k | 0 < k <= n - 1 ensures SafeRead(env, st, before[..k]) {
        assert before[..k] == chunks[..k];
      }
      SafeRunsAgree(env, st, before);
      FeedExactly(env, RunReads(env, st, before), chunks[n - 1]);
      ParseResumes(env, st, Stream(before), chunks[n - 1].data);
      assert chunks[..n] == chunks;
      assert SafeRead(env, st, chunks[..n]);
    }
  }

  lemma EmptyStream(env: Env, st: Auth)
    ensures Parse(env, st, []) == Wait(st, [])
  {
  }

  /** Whatever the unreceived bytes contain, the frames handled so far and their replies are a prefix of
      those of the reference, and a run that has not been closed early is exactly the reference. */
  lemma {:induction false} RunsArePrefixes(env: Env, st: Auth, chunks: seq<Read>)
    ensures var o, full := RunReads(env, st, chunks), Parse(env, st, Stream(chunks));
            && o.frames <= full.frames && o.replies <= full.replies
            && (o == full || o.fate == Closed)
  {
    hide Parse, ReadLoop, Fits;
    if chunks == [] {
      EmptyStream(env, st);
    } else {
      var n := |chunks|;
      var before, last := chunks[..n - 1], chunks[n - 1];
      RunsArePrefixes(env, st, before);
      FeedExactly(env, RunReads(env, st, before), last);
      ParseResumes(env, st, Stream(before), last.data);
      ResumeGrows(env, Parse(env, st, Stream(before)), last.data);
    }
  }

  lemma ResumeGrows(env: Env, o: Outcome, b: bytes)
    ensures o.frames <= Resume(env, o, b).frames && o.replies <= Resume(env, o, b).replies
  {
  }

  /** Agreement after every read holds if and only if every read is safe. */
  lemma {:induction false} AgreementIff(env: Env, st: Auth, chunks: seq<Read>)
    ensures (forall k :: 0 <= k <= |chunks| ==> RunReads(env, st, chunks[..k]) == Parse(env, st, Stream(chunks[..k])))
       <==> (forall k :: 0 < k <= |chunks| ==> SafeRead(env, st, chunks[..k]))
  {
    hide Parse, ReadLoop, Fits;
    if forall k :: 0 < k <= |chunks| ==> SafeRead(env, st, chunks[..k]) {
      forall k | 0 <= k <= |chunks| ensures RunReads(env, st, chunks[..k]) == Parse(env, st, Stream(chunks[..k])) {
        forall j | 0 < j <= k ensures SafeRead(env, st, chunks[..k][..j]) {
          assert chunks[..k][..j] == chunks[..j];
        }
        SafeRunsAgree(env, st, chunks[..k]);
      }
    }
    if forall k :: 0 <= k <= |chunks| ==> RunReads(env, st, chunks[..k]) == Parse(env, st, Stream(chunks[..k])) {
      forall k | 0 < k <= |chunks| ensures SafeRead(env, st, chunks[..k]) {
        var rs := chunks[..k];
        assert rs[..k - 1] == chunks[..k - 1];
        FeedExactly(env, RunReads(env, st, chunks[..k - 1]), rs[k - 1]);
        ParseResumes(env, st, Stream(chunks[..k - 1]), rs[k - 1].data);
      }
    }
  }

  // ---------- whatever lies behind the received bytes ----------

  /** The fourth byte alone makes the length at least 256, which is too long. */
  function BadJunk(): Junk {
    (i: nat) => if i == 3 then 1 else 0
  }

  lemma BadJunkNeverFits(rest: bytes)
    requires InHeader(rest)
    ensures !Fits(rest, BadJunk())
  {
  }

  /** One call agrees with the reference for every content of the unreceived bytes if and only if it does not
      end inside the first four bytes of a challenge. */
  lemma CallAlwaysAgreesIff(env: Env, st: Auth, active: bytes)
    ensures var o := Parse(env, st, active);
            (forall junk: Junk :: ReadLoop(env, st, active, junk) == o) <==> !(o.fate == Waiting && InHeader(o.rest))
  {
    hide Parse, ReadLoop, InHeader, Fits;
    var o := Parse(env, st, active);
    forall junk: Junk ensures ReadLoop(env, st, active, junk) == o <==> !(o.fate == Waiting && InHeader(o.rest)) || Fits(o.rest, junk) {
      ReadAgreesIff(env, st, active, junk);
    }
    if o.fate == Waiting && InHeader(o.rest) {
      BadJunkNeverFits(o.rest);
      assert ReadLoop(env, st, active, BadJunk()) != o;
    }
  }

  function DataOf(chunks: seq<Read>): seq<bytes> {
    seq(|chunks|, i requires 0 <= i < |chunks| => chunks[i].data)
  }

  /** The stream after the first k reads ends inside the first four bytes of a challenge. */
  predicate EndsInHeader(env: Env, st: Auth, chunks: seq<Read>) {
    var o := Parse(env, st, Stream(chunks));
    o.fate == Waiting && InHeader(o.rest)
  }

  ghost predicate Agrees(env: Env, st: Auth, chunks: seq<Read>) {
    forall k :: 0 <= k <= |chunks| ==> RunReads(env, st, chunks[..k]) == Parse(env, st, Stream(chunks[..k]))
  }

  lemma {:induction false} StreamOfData(a: seq<Read>, b: seq<Read>)
    requires DataOf(a) == DataOf(b)
    ensures Stream(a) == Stream(b)
    decreases |a|
  {
    assert |a| == |DataOf(a)| == |DataOf(b)| == |b|;
    if a != [] {
      var n := |a| - 1;
      assert DataOf(a)[n] == DataOf(b)[n];
      assert DataOf(a[..n]) == DataOf(a)[..n] == DataOf(b)[..n] == DataOf(b[..n]);
      StreamOfData(a[..n], b[..n]);
    }
  }

  /** Reading some split of a stream agrees with the reference after every read, for every content of the
      unreceived bytes, if and only if no read ends inside the first four bytes of a challenge. */
  lemma RunAlwaysAgreesIff(env: Env, st: Auth, chunks: seq<Read>)
    ensures (forall others: seq<Read> :: DataOf(others) == DataOf(chunks) ==> Agrees(env, st, others))
       <==> (forall k :: 0 < k <= |chunks| ==> !EndsInHeader(env, st, chunks[..k]))
  {
    hide Parse, ReadLoop, InHeader, Fits, Stream, RunReads;
    if forall k :: 0 < k <= |chunks| ==> !EndsInHeader(env, st, chunks[..k]) {
      forall others: seq<Read> | DataOf(others) == DataOf(chunks) ensures Agrees(env, st, others) {
        HeadersOfData(env, st, chunks, others);
        AgreementIff(env, st, others);
      }
    } else {
      var k :| 0 < k <= |chunks| && EndsInHeader(env, st, chunks[..k]);
      var others := seq(|chunks|, i requires 0 <= i < |chunks| => Read(chunks[i].data, BadJunk()));
      assert DataOf(others) == DataOf(chunks);
      HeadersOfData(env, st, chunks, others);
      assert EndsInHeader(env, st, others[..k]);
      assert others[..k][k - 1].junk == BadJunk();
      BadJunkNeverFits(Parse(env, st, Stream(others[..k])).rest);
      assert !SafeRead(env, st, others[..k]);
      AgreementIff(env, st, others);
    }
  }

  lemma HeadersOfData(env: Env, st: Auth, chunks: seq<Read>, others: seq<Read>)
    requires DataOf(others) == DataOf(chunks)
    ensures |others| == |chunks|
    ensures forall k :: 0 <= k <= |chunks| ==> (EndsInHeader(env, st, others[..k]) <==> EndsInHeader(env, st, chunks[..k]))
  {
    hide Parse, InHeader, Stream;
    assert |others| == |DataOf(others)| == |DataOf(chunks)| == |chunks|;
    forall k | 0 <= k <= |chunks| ensures EndsInHeader(env, st, others[..k]) <==> EndsInHeader(env, st, chunks[..k]) {
      assert DataOf(others[..k]) == DataOf(others)[..k] == DataOf(chunks)[..k] == DataOf(chunks[..k]);
      StreamOfData(others[..k], chunks[..k]);
    }
  }
}
