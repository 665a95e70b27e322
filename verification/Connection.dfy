/** A whole connection: completed reads feed the session, its replies join the write queue, and the worker's
    updates and the callbacks of waits move them to the wire, interleaved in any order. */
module Connections {
  import opened Bytes
  import opened Authentication
  import opened Framing
  import W = WriteQueue

  /** `o` is the read side and `w` the write side.  History: the completed reads, and the steps of the write side. */
  datatype Connection = Connection(o: Outcome, w: W.Writer, chunks: seq<Read>, writes: seq<W.Action>)

  datatype Action =
    | Receive(r: Read)
    | ReadError
    | Tick(answers: nat -> W.Answer)
    | Wake(answer: W.Answer)

  function Init(): Connection {
    Connection(Wait(InitialAuth(), []), W.Init(false), [], [])
  }

  /** A read is outstanding: async_read arms none on a socket that is not open. */
  predicate Reading(s: Connection) {
    s.o.fate == Waiting && !s.w.closed
  }

  function Added(old': Outcome, new': Outcome): seq<bytes> {
    if |old'.replies| <= |new'.replies| then new'.replies[|old'.replies|..] else []
  }

  function Queues(replies: seq<bytes>): seq<W.Action> {
    seq(|replies|, i requires 0 <= i < |replies| => W.Queue(replies[i]))
  }

  function Apply(s: Connection, o: Outcome, steps: seq<W.Action>): Connection {
    s.(o := o, w := W.Exec(s.w, steps), writes := s.writes + steps)
  }

  function Step(env: Env, s: Connection, a: Action): Connection {
    match a
    case Receive(r) =>
      if !Reading(s) then s
      else
        var o := Feed(env, s.o, r);
        Apply(s.(chunks := s.chunks + [r]), o, Queues(Added(s.o, o)) + (if o.fate == Closed then [W.Close] else []))
    case ReadError => if Reading(s) then Apply(s, s.o, [W.Close]) else s
    case Tick(answers) => Apply(s, s.o, [W.Update(answers)])
    case Wake(answer) => Apply(s, s.o, [W.Wakeup(answer)])
  }

  function Exec(env: Env, s: Connection, run: seq<Action>): Connection
    decreases |run|
  {
    if run == [] then s else Exec(env, Step(env, s, run[0]), run[1..])
  }

  // ---------- invariant ----------

  ghost predicate Inv(env: Env, s: Connection) {
    && s.o == RunReads(env, InitialAuth(), s.chunks)
    && s.w == W.Exec(W.Init(false), s.writes)
    && W.Queued(s.writes) == s.o.replies
  }

  lemma {:induction false} QueuedOfQueues(replies: seq<bytes>)
    ensures W.Queued(Queues(replies)) == replies
  {
    if replies != [] {
      assert Queues(replies)[1..] == Queues(replies[1..]);
      QueuedOfQueues(replies[1..]);
    }
  }

  lemma QueuedOfOne(a: W.Action)
    ensures W.Queued([a]) == if a.Queue? then [a.data] else []
  {
    assert [a][1..] == [];
  }

  lemma ApplyPreserves(env: Env, s: Connection, o: Outcome, steps: seq<W.Action>)
    requires s.w == W.Exec(W.Init(false), s.writes) && W.Queued(s.writes) + W.Queued(steps) == o.replies
    requires o == RunReads(env, InitialAuth(), s.chunks)
    ensures Inv(env, Apply(s, o, steps))
  {
    hide W.Exec, W.Queued, RunReads;
    W.ExecConcat(W.Init(false), s.writes, steps);
    W.QueuedConcat(s.writes, steps);
  }

  lemma ReceivePreserves(env: Env, s: Connection, r: Read)
    requires Inv(env, s) && Reading(s)
    ensures Inv(env, Step(env, s, Receive(r)))
  {
    hide W.Exec, W.Queued, ReadLoop;
    var o := Feed(env, s.o, r);
    var chunks := s.chunks + [r];
    assert chunks[..|chunks| - 1] == s.chunks;
    assert o == RunReads(env, InitialAuth(), chunks);
    assert s.o.replies + Added(s.o, o) == o.replies;
    var close: seq<W.Action> := if o.fate == Closed then [W.Close] else [];
    QueuedOfQueues(Added(s.o, o));
    QueuedOfOne(W.Close);
    QueuedOfNone();
    W.QueuedConcat(Queues(Added(s.o, o)), close);
    assert Added(s.o, o) + [] == Added(s.o, o);
    ApplyPreserves(env, s.(chunks := chunks), o, Queues(Added(s.o, o)) + close);
  }

  lemma QueuedOfNone()
    ensures W.Queued([]) == []
  {
  }

  lemma StepPreserves(env: Env, s: Connection, a: Action)
    requires Inv(env, s)
    ensures Inv(env, Step(env, s, a))
  {
    hide W.Exec, W.Queued, RunReads, Feed;
    match a {
      case Receive(r) =>
        if Reading(s) {
          ReceivePreserves(env, s, r);
        }
      case ReadError =>
        QueuedOfOne(W.Close);
        assert s.o.replies + [] == s.o.replies;
        ApplyPreserves(env, s, s.o, [W.Close]);
      case Tick(answers) =>
        QueuedOfOne(W.Update(answers));
        assert s.o.replies + [] == s.o.replies;
        ApplyPreserves(env, s, s.o, [W.Update(answers)]);
      case Wake(answer) =>
        QueuedOfOne(W.Wakeup(answer));
        assert s.o.replies + [] == s.o.replies;
        ApplyPreserves(env, s, s.o, [W.Wakeup(answer)]);
    }
  }

  lemma {:induction false} ExecPreserves(env: Env, s: Connection, run: seq<Action>)
    requires Inv(env, s)
    ensures Inv(env, Exec(env, s, run))
    decreases |run|
  {
    hide Inv, Step;
    if run != [] {
      StepPreserves(env, s, run[0]);
      ExecPreserves(env, Step(env, s, run[0]), run[1..]);
    }
  }

  lemma Reachable(env: Env, run: seq<Action>)
    ensures Inv(env, Exec(env, Init(), run))
  {
    assert Inv(env, Init());
    ExecPreserves(env, Init(), run);
  }

  // ---------- from the bytes received to the bytes sent ----------

  /** The replies of the reference to everything that has been received. */
  function Expected(env: Env, s: Connection): seq<bytes> {
    Parse(env, InitialAuth(), Stream(s.chunks)).replies
  }

  ghost predicate AllSafe(env: Env, s: Connection) {
    forall k :: 0 < k <= |s.chunks| ==> SafeRead(env, InitialAuth(), s.chunks[..k])
  }

  /** For every interleaving, every split of the input, every content of unreceived bytes and all answers of the
      operating system: the wire carries one prefix of each reply of the reference, in order, up to some
      reply; with safe reads the packets are all of its replies. */
  lemma WireIsReplyPrefixes(env: Env, run: seq<Action>)
    ensures var s := Exec(env, Init(), run);
            var packets := s.w.retired + s.w.queue;
            && s.w.wire == W.AllDone(packets)
            && W.Datas(packets) <= Expected(env, s)
            && (AllSafe(env, s) ==> W.Datas(packets) == Expected(env, s))
  {
    hide W.AllDone, W.Datas, RunReads, Parse, SafeRead, Stream, W.Exec;
    Reachable(env, run);
    var s := Exec(env, Init(), run);
    W.WireIsPrefixes(false, s.writes);
    RunsArePrefixes(env, InitialAuth(), s.chunks);
    if AllSafe(env, s) {
      SafeRunsAgree(env, InitialAuth(), s.chunks);
    }
  }

  /** With safe reads, the bytes on the wire followed by those still queued are exactly the reference's replies
      if and only if no attempt with bytes to send got a failing answer. */
  lemma RepliesConserved(env: Env, run: seq<Action>)
    requires AllSafe(env, Exec(env, Init(), run))
    ensures var s := Exec(env, Init(), run);
            s.w.wire + W.AllLeft(s.w.queue) == W.AllData(Expected(env, s)) <==> !W.RunLoses(W.Init(false), s.writes)
  {
    hide W.AllLeft, W.AllData, RunReads, Parse, SafeRead, Stream, W.Exec, W.RunLoses;
    Reachable(env, run);
    var s := Exec(env, Init(), run);
    W.ConservationExactly(false, s.writes);
    SafeRunsAgree(env, InitialAuth(), s.chunks);
  }

  /** In particular, once everything is sent the client has received the replies of the reference and nothing else. */
  lemma EverythingArrives(env: Env, run: seq<Action>)
    requires var s := Exec(env, Init(), run);
             AllSafe(env, s) && s.w.queue == [] && !W.RunLoses(W.Init(false), s.writes)
    ensures var s := Exec(env, Init(), run); s.w.wire == W.AllData(Expected(env, s))
  {
    hide W.AllData, AllSafe, W.RunLoses, Exec, Expected;
    var s := Exec(env, Init(), run);
    RepliesConserved(env, run);
    assert s.w.wire + W.AllLeft([]) == s.w.wire;
  }

  // ---------- closing ----------

  /** A read failed while it was outstanding. */
  predicate RunFails(env: Env, s: Connection, run: seq<Action>)
    decreases |run|
  {
    run != [] && ((run[0].ReadError? && Reading(s)) || RunFails(env, Step(env, s, run[0]), run[1..]))
  }

  lemma {:induction false} ExecCloses(w: W.Writer, steps: seq<W.Action>)
    requires !w.closing
    ensures !W.Exec(w, steps).closing && (W.Exec(w, steps).closed <==> w.closed || W.Close in steps)
  {
    hide W.Exec, W.RunCloses;
    W.ClosedIff(w, steps);
    W.OnlyClose(w, steps);
  }

  lemma StepCloses(env: Env, s: Connection, a: Action)
    requires !s.w.closing && (s.o.fate == Closed ==> s.w.closed)
    ensures var s' := Step(env, s, a);
            && !s'.w.closing && (s'.o.fate == Closed ==> s'.w.closed)
            && (s'.w.closed <==> s.w.closed || (a.ReadError? && Reading(s)) || (s'.o.fate == Closed && s.o.fate != Closed))
  {
    hide W.Exec, Feed;
    match a {
      case Receive(r) =>
        var o := Feed(env, s.o, r);
        ExecCloses(s.w, Queues(Added(s.o, o)) + (if o.fate == Closed then [W.Close] else []));
      case ReadError => ExecCloses(s.w, [W.Close]);
      case Tick(answers) => ExecCloses(s.w, [W.Update(answers)]);
      case Wake(answer) => ExecCloses(s.w, [W.Wakeup(answer)]);
    }
  }

  lemma FateStays(env: Env, s: Connection, a: Action)
    ensures s.o.fate == Closed ==> Step(env, s, a).o.fate == Closed
  {
    hide W.Exec, ReadLoop;
  }

  lemma {:induction false} ExecClosesIff(env: Env, s: Connection, run: seq<Action>)
    requires !s.w.closing && (s.o.fate == Closed ==> s.w.closed)
    ensures var s' := Exec(env, s, run);
            && !s'.w.closing && (s.o.fate == Closed ==> s'.o.fate == Closed)
            && (s'.w.closed <==> s.w.closed || s'.o.fate == Closed || RunFails(env, s, run))
    decreases |run|
  {
    hide Step, Reading;
    if run != [] {
      StepCloses(env, s, run[0]);
      FateStays(env, s, run[0]);
      ExecClosesIff(env, Step(env, s, run[0]), run[1..]);
    }
  }

  /** The worker's next update answers no, so that it drops the connection, if and only if the read side has refused
      a frame or a read has failed. */
  lemma DroppedIff(env: Env, run: seq<Action>, answers: nat -> W.Answer)
    ensures var s := Exec(env, Init(), run);
            !W.UpdateStep(s.w, answers).1 <==> s.o.fate == Closed || RunFails(env, Init(), run)
  {
    hide Exec, RunFails, W.DrainFrom;
    ExecClosesIff(env, Init(), run);
  }

  // ---------- every reply gets out ----------

  ghost predicate NoAnswerFails(run: seq<Action>) {
    forall i :: 0 <= i < |run| ==>
      match run[i]
      case Tick(answers) => forall k: nat :: !W.Fails(answers(k))
      case Wake(answer) => !W.Fails(answer)
      case _ => true
  }

  /** The steps of the write side have no failing answer, and queue no empty packet. */
  ghost predicate Healthy(writes: seq<W.Action>) {
    W.NoFailure(writes) && forall i :: 0 <= i < |writes| && writes[i].Queue? ==> writes[i].data != []
  }

  lemma HealthyConcat(a: seq<W.Action>, b: seq<W.Action>)
    requires Healthy(a) && Healthy(b)
    ensures Healthy(a + b)
  {
  }

  lemma {:induction false} ParsedRepliesAreNotEmpty(env: Env, st: Auth, input: bytes)
    ensures forall r :: r in Parse(env, st, input).replies ==> r != []
    decreases |input|
  {
    hide Handle, LeValue, Parse, Known, TooLong, FrameSize;
    if input == [] {
      EmptyStream(env, st);
    } else if InHeader(input) {
      HeaderWaits(env, st, input);
    } else {
      ParseRound(env, st, input);
      var size := FrameSize(input[0], if |input| >= CHALLENGE_HEADER then LeValue(input[2..4]) else 0);
      if Known(input[0]) && !TooLong(input[0], size) && size <= |input| && Handle(env, st, input[..size]).Accept? {
        AcceptedSize(env, st, input[..size]);
        RepliesAreNotEmpty(env, st, input[..size]);
        ParsedRepliesAreNotEmpty(env, Handle(env, st, input[..size]).auth, input[size..]);
      }
    }
  }

  lemma FeedAddsReplies(env: Env, o: Outcome, r: Read)
    ensures forall x :: x in Added(o, Feed(env, o, r)) ==> x != []
  {
    hide Parse, ReadLoop;
    if o.fate == Waiting {
      ReadLoopExactly(env, o.auth, o.rest + r.data, r.junk);
      ParsedRepliesAreNotEmpty(env, o.auth, o.rest + r.data);
      var p := ReadLoop(env, o.auth, o.rest + r.data, r.junk);
      assert (o.replies + p.replies)[|o.replies|..] == p.replies;
    }
  }

  lemma QueuesAreHealthy(replies: seq<bytes>, close: seq<W.Action>)
    requires (forall x :: x in replies ==> x != []) && (close == [] || close == [W.Close])
    ensures Healthy(Queues(replies) + close)
  {
    assert forall i :: 0 <= i < |replies| ==> replies[i] in replies;
  }

  lemma StepIsHealthy(env: Env, s: Connection, a: Action)
    requires Healthy(s.writes) && NoAnswerFails([a])
    ensures Healthy(Step(env, s, a).writes)
  {
    hide W.Exec, Feed, Added;
    assert [a][0] == a;
    match a {
      case Receive(r) =>
        FeedAddsReplies(env, s.o, r);
        var o := Feed(env, s.o, r);
        var close: seq<W.Action> := if o.fate == Closed then [W.Close] else [];
        QueuesAreHealthy(Added(s.o, o), close);
        HealthyConcat(s.writes, Queues(Added(s.o, o)) + close);
      case ReadError => HealthyConcat(s.writes, [W.Close]);
      case Tick(answers) => HealthyConcat(s.writes, [W.Update(answers)]);
      case Wake(answer) => HealthyConcat(s.writes, [W.Wakeup(answer)]);
    }
  }

  lemma {:induction false} ExecIsHealthy(env: Env, s: Connection, run: seq<Action>)
    requires Healthy(s.writes) && NoAnswerFails(run)
    ensures Healthy(Exec(env, s, run).writes)
    decreases |run|
  {
    hide Step, Healthy;
    if run != [] {
      StepIsHealthy(env, s, run[0]);
      ExecIsHealthy(env, Step(env, s, run[0]), run[1..]);
    }
  }

  lemma {:induction false} ExecConcat(env: Env, s: Connection, a: seq<Action>, b: seq<Action>)
    ensures Exec(env, s, a + b) == Exec(env, Exec(env, s, a), b)
    decreases |a|
  {
    hide Step;
    if a == [] {
      assert a + b == b;
    } else {
      assert (a + b)[1..] == a[1..] + b;
      ExecConcat(env, Step(env, s, a[0]), a[1..], b);
    }
  }

  lemma TwoMore(env: Env, s: Connection, answer: W.Answer, answers: nat -> W.Answer)
    ensures Exec(env, s, [Wake(answer), Tick(answers)]).w == W.UpdateStep(W.WakeupStep(s.w, answer), answers).0
    ensures Exec(env, s, [Wake(answer), Tick(answers)]).o == s.o
  {
    hide W.WakeupStep, W.UpdateStep;
    var run := [Wake(answer), Tick(answers)];
    assert run[1..] == [Tick(answers)] && run[1..][1..] == [];
    assert [W.Wakeup(answer)][1..] == [] && [W.Update(answers)][1..] == [];
    var s1 := Step(env, s, Wake(answer));
    assert s1.w == W.Exec(W.Step(s.w, W.Wakeup(answer)), []);
    assert Exec(env, s, run) == Exec(env, s1, run[1..]);
    assert Exec(env, s1, [Tick(answers)]) == Exec(env, Step(env, s1, Tick(answers)), []);
    assert Step(env, s1, Tick(answers)).w == W.Exec(W.Step(s1.w, W.Update(answers)), []);
  }

  /** The server answers: for every interleaving of reads, ticks and callbacks in which no answer of the operating
      system fails, as long as the connection is open, one more callback and one more tick put on the wire exactly the
      replies of the reference to everything received, provided that the reads are safe and the operating system
      takes what it is offered. */
  lemma EveryReplyGetsOut(env: Env, run: seq<Action>, answer: W.Answer, answers: nat -> W.Answer)
    requires NoAnswerFails(run) && AllSafe(env, Exec(env, Init(), run)) && !Exec(env, Init(), run).w.closed
    requires var queue := Exec(env, Init(), run).w.queue;
             W.TakesAll(answer, queue) && forall k: nat :: W.TakesAll(answers(k), queue)
    ensures var s := Exec(env, Init(), run + [Wake(answer), Tick(answers)]);
            s.w.wire == W.AllData(Expected(env, Exec(env, Init(), run))) && s.w.queue == []
  {
    hide W.AllData, AllSafe, Exec, Expected, W.Exec, W.NoFailure, RunReads, Parse, W.WakeupStep, W.UpdateStep, NoAnswerFails, W.RunCloses;
    var s := Exec(env, Init(), run);
    Reachable(env, run);
    StartIsHealthy();
    ExecIsHealthy(env, Init(), run);
    ExecCloses(W.Init(false), s.writes);
    W.EverythingGetsOut(s.writes, answer, answers);
    ExecConcat(env, Init(), run, [Wake(answer), Tick(answers)]);
    TwoMore(env, s, answer, answers);
    AllRepliesQueued(env, s);
  }

  lemma StartIsHealthy()
    ensures Healthy(Init().writes)
  {
  }

  lemma AllRepliesQueued(env: Env, s: Connection)
    requires Inv(env, s) && AllSafe(env, s)
    ensures W.Queued(s.writes) == Expected(env, s)
  {
    hide RunReads, Parse, SafeRead, Stream, W.Exec, W.Queued;
    SafeRunsAgree(env, InitialAuth(), s.chunks);
  }
}
