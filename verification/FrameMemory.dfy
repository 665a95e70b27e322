/** Reading with the memory of the read buffer: what lies behind the received bytes is what the buffer held
    before, zeros at first and stale bytes of earlier reads later.  Only bytes beyond the end of the buffer
    are arbitrary. */
module FrameMemory {
  import opened Bytes
  import opened MessageBuffers
  import opened Authentication
  import opened Framing

  function At(mem: bytes, i: nat, beyond: Junk): byte {
    if i < |mem| then mem[i] else beyond(i)
  }

  /** The bytes by offset from the read position r. */
  function JunkAt(mem: bytes, r: nat, beyond: Junk): Junk {
    (i: nat) => At(mem, r + i, beyond)
  }

  lemma SeenIsAt(mem: bytes, r: nat, w: nat, i: nat, beyond: Junk)
    requires r <= w <= |mem|
    ensures Seen(mem[r..w], i, JunkAt(mem, r, beyond)) == At(mem, r + i, beyond)
  {
  }

  /** One call of the read handler with the read position r and the write position w. */
  function ReadMem(env: Env, st: Auth, mem: bytes, r: nat, w: nat, beyond: Junk): (o: Outcome)
    requires r <= w <= |mem|
    ensures o.fate == Waiting ==> |o.rest| <= w - r && o.rest == mem[w - |o.rest|..w]
    ensures o.fate != Waiting ==> o.rest == []
    decreases w - r
  {
    if r == w then Wait(st, [])
    else if !Known(mem[r]) then Ended(st, Stopped)
    else
      var size := FrameSize(mem[r], SeenLength(mem[r..w], JunkAt(mem, r, beyond)));
      if TooLong(mem[r], size) then Ended(st, Closed)
      else if w - r < size then Wait(st, mem[r..w])
      else
        var frame := mem[r..r + size];
        match Handle(env, st, frame)
        case Reject => Ended(st, Closed)
        case Undefined => Ended(st, Aborted)
        case Accept(st1, reply) =>
          assert size > 0 by { AcceptedSize(env, st, frame); }
          Then(frame, reply, ReadMem(env, st1, mem, r + size, w, beyond))
  }

  /** One round of the handler, by the branch it takes. */
  lemma MemRound(env: Env, st: Auth, mem: bytes, r: nat, w: nat, beyond: Junk)
    requires r < w <= |mem|
    ensures var o := ReadMem(env, st, mem, r, w, beyond);
            var size := FrameSize(mem[r], SeenLength(mem[r..w], JunkAt(mem, r, beyond)));
            && (!Known(mem[r]) ==> o == Ended(st, Stopped))
            && (Known(mem[r]) && TooLong(mem[r], size) ==> o == Ended(st, Closed))
            && (Known(mem[r]) && !TooLong(mem[r], size) && w - r < size ==> o == Wait(st, mem[r..w]))
            && (Known(mem[r]) && !TooLong(mem[r], size) && size <= w - r ==>
                  var h := Handle(env, st, mem[r..r + size]);
                  && (h.Reject? ==> o == Ended(st, Closed))
                  && (h.Undefined? ==> o == Ended(st, Aborted))
                  && (h.Accept? ==>
                        size > 0 && o == Then(mem[r..r + size], h.reply, ReadMem(env, h.auth, mem, r + size, w, beyond))))
  {
    hide Handle, FrameSize, TooLong, Known;
    var size := FrameSize(mem[r], SeenLength(mem[r..w], JunkAt(mem, r, beyond)));
    if size <= w - r && Handle(env, st, mem[r..r + size]).Accept? {
      AcceptedSize(env, st, mem[r..r + size]);
    }
  }

  /** A call that ends inside the header of a challenge either waits or closes. */
  lemma HeaderRound(env: Env, st: Auth, mem: bytes, r: nat, w: nat, beyond: Junk)
    requires r < w <= |mem| && InHeader(mem[r..w])
    ensures Parse(env, st, mem[r..w]) == Wait(st, mem[r..w])
    ensures ReadMem(env, st, mem, r, w, beyond) == Misread(Wait(st, mem[r..w]), JunkAt(mem, r, beyond))
  {
    hide Handle, Parse, ReadMem, FrameSize, SeenLength, JunkAt;
    var active, junk := mem[r..w], JunkAt(mem, r, beyond);
    var size := FrameSize(mem[r], SeenLength(active, junk));
    HeaderWaits(env, st, active);
    MemRound(env, st, mem, r, w, beyond);
    assert mem[r] == active[0];
    if size <= w - r {
      assert mem[r..r + size] == active[..size];
      assert size > 0 ==> active[..size][0] == active[0];
      ShortChallengeRefused(env, st, active[..size]);
    }
  }

  /** The effect of one call, exactly: the bytes that matter are those behind what is kept. */
  lemma {:induction false} ReadMemExactly(env: Env, st: Auth, mem: bytes, r: nat, w: nat, beyond: Junk)
    requires r <= w <= |mem|
    ensures var o := Parse(env, st, mem[r..w]);
            && |o.rest| <= w - r
            && ReadMem(env, st, mem, r, w, beyond) == Misread(o, JunkAt(mem, w - |o.rest|, beyond))
    decreases w - r
  {
    hide Handle, Known, Parse, ReadMem, FrameSize, TooLong, SeenLength, JunkAt, LeValue, Misread, InHeader, Then;
    var active := mem[r..w];
    NoMisread(Parse(env, st, active), JunkAt(mem, r, beyond));
    NothingInHeader();
    if active == [] {
      EmptyStream(env, st);
      EmptyMem(env, st, mem, r, beyond);
    } else if InHeader(active) {
      HeaderRound(env, st, mem, r, w, beyond);
    } else {
      MemRound(env, st, mem, r, w, beyond);
      ParseRound(env, st, active);
      SameSize(active, JunkAt(mem, r, beyond));
      var size := FrameSize(active[0], SeenLength(active, JunkAt(mem, r, beyond)));
      if size <= |active| {
        assert mem[r..r + size] == active[..size] && mem[r + size..w] == active[size..];
        var h := Handle(env, st, active[..size]);
        if Known(active[0]) && !TooLong(active[0], size) && h.Accept? {
          ReadMemExactly(env, h.auth, mem, r + size, w, beyond);
          var o := Parse(env, h.auth, active[size..]);
          MisreadThen(active[..size], h.reply, o, JunkAt(mem, w - |o.rest|, beyond));
        } else {
          NoMisread(Parse(env, st, active), JunkAt(mem, w, beyond));
        }
      }
      if |active| < size || !Known(active[0]) || TooLong(active[0], size) {
        NoMisread(Parse(env, st, active), JunkAt(mem, w, beyond));
      }
    }
  }

  lemma NothingInHeader()
    ensures !InHeader([])
  {
  }

  lemma NoMisread(o: Outcome, junk: Junk)
    ensures o.fate != Waiting || !InHeader(o.rest) ==> Misread(o, junk) == o
  {
  }

  lemma MisreadThen(frame: bytes, reply: bytes, o: Outcome, junk: Junk)
    ensures Misread(Then(frame, reply, o), junk) == Then(frame, reply, Misread(o, junk))
    ensures Then(frame, reply, o).rest == o.rest
  {
  }

  lemma EmptyMem(env: Env, st: Auth, mem: bytes, r: nat, beyond: Junk)
    requires r <= |mem|
    ensures ReadMem(env, st, mem, r, r, beyond) == Wait(st, [])
  {
  }

  /** Outside the header of a challenge the size does not depend on the bytes behind. */
  lemma SameSize(active: bytes, junk: Junk)
    requires active != [] && !InHeader(active)
    ensures FrameSize(active[0], SeenLength(active, junk))
         == FrameSize(active[0], if |active| >= CHALLENGE_HEADER then LeValue(active[2..4]) else 0)
  {
    if |active| >= CHALLENGE_HEADER {
      SeenIsLength(active, junk);
    }
  }

  /** So a call is the call of the framing model whose bytes behind are those of the memory. */
  lemma ReadMemIsReadLoop(env: Env, st: Auth, mem: bytes, r: nat, w: nat, beyond: Junk)
    requires r <= w <= |mem|
    ensures var kept := |Parse(env, st, mem[r..w]).rest|;
            && kept <= w - r
            && ReadMem(env, st, mem, r, w, beyond) == ReadLoop(env, st, mem[r..w], JunkAt(mem, w - kept, beyond))
  {
    hide Parse, ReadMem, ReadLoop, Misread;
    ReadMemExactly(env, st, mem, r, w, beyond);
    ReadLoopExactly(env, st, mem[r..w], JunkAt(mem, w - |Parse(env, st, mem[r..w]).rest|, beyond));
  }

  // ---------- any number of reads ----------

  /** The outcome so far and the memory.  While reading goes on the kept bytes are at its front. */
  datatype Reader = Reader(o: Outcome, mem: bytes)

  /** One completed read: its bytes, and what lies beyond the end of the buffer. */
  datatype MemRead = MemRead(data: bytes, beyond: Junk)

  function Zeros(n: nat): (z: bytes)
    ensures |z| == n
  {
    seq(n, _ => 0)
  }

  function Start(): Reader {
    Reader(Wait(InitialAuth(), []), Zeros(INITIAL_SIZE))
  }

  function Stored(mem: bytes, from: nat, data: bytes): (m: bytes)
    requires from + |data| <= |mem|
    ensures |m| == |mem|
  {
    mem[..from] + data + mem[from + |data|..]
  }

  /** Kept bytes are moved to the front; everything behind them stays as it was. */
  function Normalized(mem: bytes, rest: bytes): (m: bytes)
    requires |rest| <= |mem|
    ensures |m| == |mem|
  {
    rest + mem[|rest|..]
  }

  predicate Roomy(s: Reader, r: MemRead) {
    |s.o.rest| + |r.data| <= |s.mem|
  }

  /** One more read.  The operating system never delivers more than there is room for. */
  function FeedMem(env: Env, s: Reader, r: MemRead): Reader {
    if s.o.fate != Waiting || !Roomy(s, r) then s
    else
      var w := |s.o.rest| + |r.data|;
      var mem := Stored(s.mem, |s.o.rest|, r.data);
      var p := ReadMem(env, s.o.auth, mem, 0, w, r.beyond);
      Reader(p.(frames := s.o.frames + p.frames, replies := s.o.replies + p.replies),
             if p.fate == Waiting then Normalized(mem, p.rest) else mem)
  }

  lemma FeedMemIs(env: Env, s: Reader, r: MemRead)
    requires s.o.fate == Waiting && Roomy(s, r)
    ensures var mem := Stored(s.mem, |s.o.rest|, r.data);
            var p := ReadMem(env, s.o.auth, mem, 0, |s.o.rest| + |r.data|, r.beyond);
            FeedMem(env, s, r) == Reader(p.(frames := s.o.frames + p.frames, replies := s.o.replies + p.replies),
                                         if p.fate == Waiting then Normalized(mem, p.rest) else mem)
  {
    hide ReadMem, Stored, Normalized;
  }

  lemma StoredIs(mem: bytes, from: nat, data: bytes)
    requires from + |data| <= |mem|
    ensures Stored(mem, from, data) == mem[..from] + data + mem[from + |data|..]
  {
  }

  function RunMem(env: Env, rs: seq<MemRead>): Reader {
    if rs == [] then Start() else FeedMem(env, RunMem(env, rs[..|rs| - 1]), rs[|rs| - 1])
  }

  /** Every read had room. */
  predicate Possible(env: Env, rs: seq<MemRead>) {
    rs == [] ||
    (Possible(env, rs[..|rs| - 1]) && Roomy(RunMem(env, rs[..|rs| - 1]), rs[|rs| - 1]))
  }

  predicate Good(s: Reader) {
    && |s.mem| == 4096
    && (s.o.fate == Waiting ==> |s.o.rest| < 75 && s.mem[..|s.o.rest|] == s.o.rest)
  }

  function Input(rs: seq<MemRead>): bytes {
    if rs == [] then [] else Input(rs[..|rs| - 1]) + rs[|rs| - 1].data
  }

  /** What lies behind the kept bytes at the end of this read. */
  function StaleBytes(env: Env, s: Reader, r: MemRead): Junk
    requires Good(s) && s.o.fate == Waiting && Roomy(s, r)
  {
    var mem := Stored(s.mem, |s.o.rest|, r.data);
    var w := |s.o.rest| + |r.data|;
    var rest := Parse(env, s.o.auth, s.o.rest + r.data).rest;
    JunkAt(mem, if |rest| <= w then w - |rest| else 0, r.beyond)
  }

  lemma FeedMemExactly(env: Env, s: Reader, r: MemRead)
    requires Good(s) && s.o.fate == Waiting && Roomy(s, r)
    ensures Good(FeedMem(env, s, r))
    ensures FeedMem(env, s, r).o == Misread(Resume(env, s.o, r.data), StaleBytes(env, s, r))
  {
    hide Parse, ReadMem, Misread;
    var w := |s.o.rest| + |r.data|;
    var mem := Stored(s.mem, |s.o.rest|, r.data);
    assert mem[0..w] == s.o.rest + r.data;
    ReadMemExactly(env, s.o.auth, mem, 0, w, r.beyond);
    var p := ReadMem(env, s.o.auth, mem, 0, w, r.beyond);
    MisreadResume(env, s.o, r.data, StaleBytes(env, s, r));
    LittleIsKept(env, s.o.auth, s.o.rest + r.data);
    MisreadKeeps(Parse(env, s.o.auth, s.o.rest + r.data), StaleBytes(env, s, r));
    if p.fate == Waiting {
      assert Normalized(mem, p.rest)[..|p.rest|] == p.rest;
    }
  }

  lemma MisreadResume(env: Env, o: Outcome, b: bytes, junk: Junk)
    requires o.fate == Waiting
    ensures var p := Misread(Parse(env, o.auth, o.rest + b), junk);
            Misread(Resume(env, o, b), junk) == p.(frames := o.frames + p.frames, replies := o.replies + p.replies)
  {
    hide Parse;
  }

  lemma MisreadKeeps(o: Outcome, junk: Junk)
    ensures Misread(o, junk).fate == Waiting ==> Misread(o, junk) == o
  {
  }

  /** The same reads with what lies behind them, in the terms of arbitrary bytes behind. */
  function Chunks(env: Env, rs: seq<MemRead>): (chunks: seq<Read>)
    ensures |chunks| == |rs|
  {
    if rs == [] then []
    else
      var front, r := rs[..|rs| - 1], rs[|rs| - 1];
      var s := RunMem(env, front);
      Chunks(env, front)
      + [Read(r.data, if Good(s) && s.o.fate == Waiting && Roomy(s, r) then StaleBytes(env, s, r) else r.beyond)]
  }

  /** Reading with memory is one of the runs with arbitrary bytes behind: the one whose bytes are the stale ones. */
  lemma {:induction false} RunMemIsRun(env: Env, rs: seq<MemRead>)
    requires Possible(env, rs)
    ensures Good(RunMem(env, rs))
    ensures RunMem(env, rs).o == RunReads(env, InitialAuth(), Chunks(env, rs))
    ensures Stream(Chunks(env, rs)) == Input(rs)
  {
    hide FeedMem, Feed, Good, Misread, Resume, StaleBytes;
    if rs == [] {
      StartIsGood();
    } else {
      var front, r := rs[..|rs| - 1], rs[|rs| - 1];
      RunMemIsRun(env, front);
      var s := RunMem(env, front);
      var chunks := Chunks(env, rs);
      assert chunks[..|chunks| - 1] == Chunks(env, front);
      FeedExactly(env, s.o, chunks[|chunks| - 1]);
      if s.o.fate == Waiting {
        FeedMemExactly(env, s, r);
      } else {
        EndedFeeds(env, s, r);
      }
    }
  }

  lemma StartIsGood()
    ensures Good(Start())
  {
  }

  lemma EndedFeeds(env: Env, s: Reader, r: MemRead)
    requires s.o.fate != Waiting
    ensures FeedMem(env, s, r) == s
  {
  }

  /** Whatever was read before: frames and replies are a prefix of the reference's, and a run that has not been
      closed early is the reference. */
  lemma MemRunsArePrefixes(env: Env, rs: seq<MemRead>)
    requires Possible(env, rs)
    ensures var o, full := RunMem(env, rs).o, Parse(env, InitialAuth(), Input(rs));
            && o.frames <= full.frames && o.replies <= full.replies && (o == full || o.fate == Closed)
  {
    hide Parse, RunReads, RunMem, Chunks, Stream, Input;
    RunMemIsRun(env, rs);
    RunsArePrefixes(env, InitialAuth(), Chunks(env, rs));
  }

  lemma {:induction false} ChunksPrefix(env: Env, rs: seq<MemRead>, k: nat)
    requires k <= |rs|
    ensures Chunks(env, rs)[..k] == Chunks(env, rs[..k])
  {
    if k < |rs| {
      var front := rs[..|rs| - 1];
      ChunksPrefix(env, front, k);
      assert front[..k] == rs[..k];
      assert Chunks(env, rs)[..|front|] == Chunks(env, front);
      assert Chunks(env, rs)[..k] == Chunks(env, rs)[..|front|][..k];
    } else {
      assert rs[..k] == rs && Chunks(env, rs)[..k] == Chunks(env, rs);
    }
  }

  lemma {:induction false} PossiblePrefix(env: Env, rs: seq<MemRead>, k: nat)
    requires Possible(env, rs) && k <= |rs|
    ensures Possible(env, rs[..k])
  {
    if k < |rs| {
      var front := rs[..|rs| - 1];
      PossiblePrefix(env, front, k);
      assert front[..k] == rs[..k];
    } else {
      assert rs[..k] == rs;
    }
  }

  /** With the memory of the buffer: agreement with the reference after every read holds if and only if no read
      ends inside the header of a challenge, except where the stale bytes behind happen to ask for more. */
  lemma MemAgreementIff(env: Env, rs: seq<MemRead>)
    requires Possible(env, rs)
    ensures (forall k :: 0 <= k <= |rs| ==> RunMem(env, rs[..k]).o == Parse(env, InitialAuth(), Input(rs[..k])))
       <==> (forall k :: 0 < k <= |rs| ==> SafeRead(env, InitialAuth(), Chunks(env, rs[..k])))
  {
    hide Parse, RunReads, RunMem, Chunks, Stream, Input, SafeRead, Possible, Good;
    var chunks := Chunks(env, rs);
    AgreementIff(env, InitialAuth(), chunks);
    forall k | 0 <= k <= |rs|
      ensures chunks[..k] == Chunks(env, rs[..k])
      ensures RunMem(env, rs[..k]).o == RunReads(env, InitialAuth(), chunks[..k])
      ensures Stream(chunks[..k]) == Input(rs[..k])
    {
      ChunksPrefix(env, rs, k);
      PossiblePrefix(env, rs, k);
      RunMemIsRun(env, rs[..k]);
    }
  }

  // ---------- stale bytes that close a connection ----------

  lemma OneRead(env: Env, s: Reader, r: MemRead)
    requires Good(s) && s.o.fate == Waiting && s.o.rest == [] && Roomy(s, r)
    requires Parse(env, s.o.auth, r.data).fate == Waiting && Parse(env, s.o.auth, r.data).rest == []
    ensures var p, s' := Parse(env, s.o.auth, r.data), FeedMem(env, s, r);
            && Good(s') && s'.o == p.(frames := s.o.frames + p.frames, replies := s.o.replies + p.replies)
            && s'.mem == Stored(s.mem, 0, r.data)
  {
    hide Parse, ReadMem;
    FeedMemExactly(env, s, r);
    assert [] + r.data == r.data;
    var mem := Stored(s.mem, 0, r.data);
    assert mem[0..|r.data|] == r.data;
    ReadMemExactly(env, s.o.auth, mem, 0, |r.data|, r.beyond);
    assert Normalized(mem, []) == mem;
  }

  /** When the third and fourth byte of the memory are 0 and 1 and nothing is kept, the first byte of a challenge
      closes the connection: the stale bytes read as a length of 256. */
  lemma StaleLengthCloses(env: Env, s: Reader, r: MemRead)
    requires Good(s) && s.o.fate == Waiting && s.o.rest == []
    requires s.mem[2] == 0 && s.mem[3] == 1 && r.data == [CMD_CHALLENGE]
    ensures Roomy(s, r) && FeedMem(env, s, r).o == s.o.(fate := Closed)
    ensures Resume(env, s.o, r.data) == s.o.(rest := r.data)
  {
    hide Parse, FeedMem, StaleBytes;
    FeedMemExactly(env, s, r);
    assert [] + r.data == r.data;
    HeaderWaits(env, s.o.auth, r.data);
    assert s.o.frames + [] == s.o.frames && s.o.replies + [] == s.o.replies;
    LengthBehind(env, s, r);
  }

  lemma LengthBehind(env: Env, s: Reader, r: MemRead)
    requires Good(s) && s.o.fate == Waiting && s.o.rest == []
    requires s.mem[2] == 0 && s.mem[3] == 1 && r.data == [CMD_CHALLENGE] && Roomy(s, r)
    ensures SeenLength(r.data, StaleBytes(env, s, r)) == 256
  {
    hide Parse;
    assert s.o.rest + r.data == r.data;
    HeaderWaits(env, s.o.auth, r.data);
    var mem := Stored(s.mem, 0, r.data);
    assert Parse(env, s.o.auth, s.o.rest + r.data).rest == r.data;
    assert mem[2] == 0 && mem[3] == 1;
    var junk := StaleBytes(env, s, r);
    assert junk == JunkAt(mem, 0, r.beyond);
    assert JunkAt(mem, 0, r.beyond)(2) == At(mem, 2, r.beyond) && JunkAt(mem, 0, r.beyond)(3) == At(mem, 3, r.beyond);
    assert junk(2) == mem[2] && junk(3) == mem[3];
  }
}
