/** The write side of a socket as a step system.  The operating system answers every attempt to write;
    what it answers is arbitrary. */
module WriteQueue {
  import opened Bytes

  /** A queued packet and how many of its bytes have been consumed. */
  datatype Packet = Packet(data: bytes, pos: nat)

  /** The answer to a write: so many bytes taken, try again later, or a hard error. */
  datatype Answer = Sent(n: nat) | WouldBlock | HardError

  /** History: the bytes on the wire, the packets taken off the queue, and the outstanding waits.
      `closing` is never changed by any step. */
  datatype Writer = Writer(
    queue: seq<Packet>, writingAsync: bool, closed: bool, closing: bool,
    wire: bytes, retired: seq<Packet>, waits: nat)

  datatype Action =
    | Queue(data: bytes)
    | Update(answers: nat -> Answer)
    | Wakeup(answer: Answer)
    | Close                       // close_socket, by the read side

  function Init(closing: bool): Writer {
    Writer([], false, false, closing, [], [], 0)
  }

  function Remaining(p: Packet): nat {
    if p.pos <= |p.data| then |p.data| - p.pos else 0
  }

  /** The operating system cannot take more than it is offered. */
  function Taken(answer: Answer, size: nat): nat {
    if answer.Sent? then (if answer.n < size then answer.n else size) else 0
  }

  // ---------- steps ----------

  function Consume(w: Writer, n: nat): Writer
    requires w.queue != []
  {
    var p := w.queue[0];
    w.(queue := [p.(pos := p.pos + n)] + w.queue[1..],
       wire := w.wire + (if p.pos + n <= |p.data| then p.data[p.pos..p.pos + n] else []))
  }

  function Pop(w: Writer): Writer
    requires w.queue != []
  {
    var rest := w.queue[1..];
    w.(queue := rest, retired := w.retired + [w.queue[0]], closed := w.closed || (w.closing && rest == []))
  }

  function HandleAsync(w: Writer): Writer {
    if w.writingAsync then w else w.(writingAsync := true, waits := w.waits + 1)
  }

  /** One attempt on the front packet; the flag asks for another attempt. */
  function HandleQueue(w: Writer, answer: Answer): (Writer, bool) {
    if w.queue == [] then (w, false)
    else
      var size := Remaining(w.queue[0]);
      var sent := Taken(answer, size);
      if answer.WouldBlock? then (HandleAsync(w), false)
      else if answer.HardError? || sent == 0 then (Pop(w), false)
      else if sent < size then (HandleAsync(Consume(w, sent)), false)
      else
        var w' := Pop(Consume(w, sent));
        (w', w'.queue != [])
  }

  /** The loop of update: every repetition has removed a packet. */
  function DrainFrom(w: Writer, answers: nat -> Answer, i: nat): Writer
    decreases |w.queue|
  {
    var (w', again) := HandleQueue(w, answers(i));
    if again then DrainFrom(w', answers, i + 1) else w'
  }

  lemma DrainUnfolds(w: Writer, answers: nat -> Answer, i: nat)
    ensures var (w', again) := HandleQueue(w, answers(i));
            && DrainFrom(w, answers, i) == (if again then DrainFrom(w', answers, i + 1) else w')
            && (again ==> |w'.queue| < |w.queue|)
  {
  }

  function UpdateStep(w: Writer, answers: nat -> Answer): (Writer, bool) {
    if w.closed then (w, false)
    else if w.writingAsync || (w.queue == [] && !w.closing) then (w, true)
    else (DrainFrom(w, answers, 0), true)
  }

  function WakeupStep(w: Writer, answer: Answer): Writer {
    if w.waits == 0 then w
    else HandleQueue(w.(writingAsync := false, waits := w.waits - 1), answer).0
  }

  function Step(w: Writer, a: Action): Writer {
    match a
    case Queue(data) => w.(queue := w.queue + [Packet(data, 0)])
    case Update(answers) => UpdateStep(w, answers).0
    case Wakeup(answer) => WakeupStep(w, answer)
    case Close => w.(closed := true)
  }

  function Exec(w: Writer, run: seq<Action>): Writer
    decreases |run|
  {
    if run == [] then w else Exec(Step(w, run[0]), run[1..])
  }

  /** Everything that was handed to the queue, in order. */
  function Queued(run: seq<Action>): seq<bytes> {
    if run == [] then []
    else (if run[0].Queue? then [run[0].data] else []) + Queued(run[1..])
  }

  lemma {:induction false} ExecConcat(w: Writer, a: seq<Action>, b: seq<Action>)
    ensures Exec(w, a + b) == Exec(Exec(w, a), b)
    decreases |a|
  {
    hide Step;
    if a == [] {
      assert a + b == b;
    } else {
      assert (a + b)[1..] == a[1..] + b;
      ExecConcat(Step(w, a[0]), a[1..], b);
    }
  }

  lemma {:induction false} QueuedConcat(a: seq<Action>, b: seq<Action>)
    ensures Queued(a + b) == Queued(a) + Queued(b)
  {
    if a == [] {
      assert a + b == b;
    } else {
      assert (a + b)[1..] == a[1..] + b;
      QueuedConcat(a[1..], b);
    }
  }

  // ---------- what the state says about the packets ----------

  function Datas(ps: seq<Packet>): seq<bytes> {
    seq(|ps|, i requires 0 <= i < |ps| => ps[i].data)
  }

  function Done(p: Packet): bytes {
    if p.pos <= |p.data| then p.data[..p.pos] else p.data
  }

  function Left(p: Packet): bytes {
    if p.pos <= |p.data| then p.data[p.pos..] else []
  }

  function AllDone(ps: seq<Packet>): bytes {
    if ps == [] then [] else Done(ps[0]) + AllDone(ps[1..])
  }

  function AllLeft(ps: seq<Packet>): bytes {
    if ps == [] then [] else Left(ps[0]) + AllLeft(ps[1..])
  }

  function AllData(ps: seq<bytes>): bytes {
    if ps == [] then [] else ps[0] + AllData(ps[1..])
  }

  function Packets(w: Writer): seq<Packet> {
    w.retired + w.queue
  }

  /** Only the front packet is partly consumed; one wait is outstanding exactly while the flag is set;
      the wire carries one prefix of every packet, in order. */
  ghost predicate Inv(w: Writer) {
    && (forall i :: 0 <= i < |Packets(w)| ==> Packets(w)[i].pos <= |Packets(w)[i].data|)
    && (forall i :: 0 < i < |w.queue| ==> w.queue[i].pos == 0)
    && w.waits == (if w.writingAsync then 1 else 0)
    && w.wire == AllDone(Packets(w))
  }

  // ---------- sequences of packets ----------

  lemma {:induction false} DoneConcat(a: seq<Packet>, b: seq<Packet>)
    ensures AllDone(a + b) == AllDone(a) + AllDone(b)
  {
    if a == [] {
      assert a + b == b;
    } else {
      assert (a + b)[1..] == a[1..] + b;
      DoneConcat(a[1..], b);
    }
  }

  lemma {:induction false} UntouchedDone(ps: seq<Packet>)
    requires forall i :: 0 <= i < |ps| ==> ps[i].pos == 0
    ensures AllDone(ps) == []
  {
    if ps != [] {
      UntouchedDone(ps[1..]);
    }
  }

  lemma FrontDone(p: Packet, rest: seq<Packet>)
    requires forall i :: 0 <= i < |rest| ==> rest[i].pos == 0
    ensures AllDone([p] + rest) == Done(p)
  {
    UntouchedDone(rest);
    assert ([p] + rest)[1..] == rest;
    assert Done(p) + [] == Done(p);
  }

  lemma PacketsAfterConsume(w: Writer, n: nat)
    requires w.queue != []
    ensures var p := w.queue[0];
            && w.queue == [p] + w.queue[1..]
            && Packets(w) == w.retired + ([p] + w.queue[1..])
            && Packets(Consume(w, n)) == w.retired + ([p.(pos := p.pos + n)] + w.queue[1..])
            && Datas(Packets(Consume(w, n))) == Datas(Packets(w))
            && (forall i :: 0 <= i < |Packets(w)| && i != |w.retired| ==> Packets(Consume(w, n))[i] == Packets(w)[i])
  {
    assert w.queue == [w.queue[0]] + w.queue[1..];
  }

  /** Consuming some of the front packet puts exactly those bytes on the wire. */
  lemma ConsumePreserves(w: Writer, n: nat)
    requires Inv(w) && w.queue != [] && n <= Remaining(w.queue[0])
    ensures Inv(Consume(w, n))
    ensures Datas(Packets(Consume(w, n))) == Datas(Packets(w))
  {
    hide AllDone, Datas, Done;
    var w' := Consume(w, n);
    var p, p', rest := w.queue[0], w'.queue[0], w.queue[1..];
    PacketsAfterConsume(w, n);
    assert Packets(w)[|w.retired|] == p && Packets(w')[|w.retired|] == p';
    forall i | 0 <= i < |rest| ensures rest[i].pos == 0 {
      assert rest[i] == w.queue[i + 1];
    }
    WireGrows(w.retired, p, rest, n);
  }

  lemma WireGrows(retired: seq<Packet>, p: Packet, rest: seq<Packet>, n: nat)
    requires p.pos + n <= |p.data| && forall i :: 0 <= i < |rest| ==> rest[i].pos == 0
    ensures AllDone(retired + ([p.(pos := p.pos + n)] + rest)) == AllDone(retired + ([p] + rest)) + p.data[p.pos..p.pos + n]
  {
    hide AllDone;
    var p' := p.(pos := p.pos + n);
    DoneConcat(retired, [p] + rest);
    DoneConcat(retired, [p'] + rest);
    FrontDone(p, rest);
    FrontDone(p', rest);
    var taken := p.data[p.pos..p.pos + n];
    assert Done(p') == Done(p) + taken;
    assert AllDone(retired) + (Done(p) + taken) == (AllDone(retired) + Done(p)) + taken;
  }

  lemma PopPreserves(w: Writer)
    requires Inv(w) && w.queue != []
    ensures Inv(Pop(w)) && Packets(Pop(w)) == Packets(w)
  {
    assert w.queue == [w.queue[0]] + w.queue[1..];
    assert Packets(Pop(w)) == Packets(w);
  }

  lemma AttemptPreserves(w: Writer, answer: Answer)
    requires Inv(w)
    ensures Inv(HandleQueue(w, answer).0)
    ensures Datas(Packets(HandleQueue(w, answer).0)) == Datas(Packets(w))
  {
    hide Inv, Datas, Packets;
    if w.queue != [] {
      var sent := Taken(answer, Remaining(w.queue[0]));
      ConsumePreserves(w, sent);
      AsyncPreserves(w);
      AsyncPreserves(Consume(w, sent));
      PopPreserves(w);
      PopPreserves(Consume(w, sent));
    }
  }

  lemma AsyncPreserves(w: Writer)
    requires Inv(w)
    ensures Inv(HandleAsync(w)) && Packets(HandleAsync(w)) == Packets(w)
  {
  }

  lemma {:induction false} DrainPreserves(w: Writer, answers: nat -> Answer, i: nat)
    requires Inv(w)
    ensures Inv(DrainFrom(w, answers, i))
    ensures Datas(Packets(DrainFrom(w, answers, i))) == Datas(Packets(w))
    decreases |w.queue|
  {
    hide Inv, Datas, Packets;
    AttemptPreserves(w, answers(i));
    var (w', again) := HandleQueue(w, answers(i));
    if again {
      DrainPreserves(w', answers, i + 1);
    }
  }

  lemma QueuePreserves(w: Writer, data: bytes)
    requires Inv(w)
    ensures var w' := Step(w, Queue(data));
            Inv(w') && Datas(Packets(w')) == Datas(Packets(w)) + [data]
  {
    hide AllDone, Datas;
    var w' := Step(w, Queue(data));
    var p := Packet(data, 0);
    assert w.retired + (w.queue + [p]) == (w.retired + w.queue) + [p];
    DoneConcat(Packets(w), [p]);
    UntouchedDone([p]);
    DatasAppend(Packets(w), p);
    assert w.wire + [] == w.wire;
  }

  lemma DatasAppend(ps: seq<Packet>, p: Packet)
    ensures Datas(ps + [p]) == Datas(ps) + [p.data]
  {
  }

  /** Every step keeps the invariant, and nothing but queueing changes the list of packets. */
  lemma StepPreserves(w: Writer, a: Action)
    requires Inv(w)
    ensures Inv(Step(w, a))
    ensures Datas(Packets(Step(w, a))) == Datas(Packets(w)) + (if a.Queue? then [a.data] else [])
  {
    match a {
      case Queue(data) =>
        QueuePreserves(w, data);
      case Update(answers) =>
        DrainPreserves(w, answers, 0);
      case Wakeup(answer) =>
        if w.waits > 0 {
          var w1 := w.(writingAsync := false, waits := w.waits - 1);
          assert Packets(w1) == Packets(w);
          AttemptPreserves(w1, answer);
        }
      case Close =>
        assert Packets(Step(w, a)) == Packets(w);
    }
  }

  lemma {:induction false} ExecPreserves(w: Writer, run: seq<Action>)
    requires Inv(w)
    ensures Inv(Exec(w, run))
    ensures Datas(Packets(Exec(w, run))) == Datas(Packets(w)) + Queued(run)
    decreases |run|
  {
    hide Inv, Datas, Packets, Step;
    if run != [] {
      StepPreserves(w, run[0]);
      ExecPreserves(Step(w, run[0]), run[1..]);
      var added := if run[0].Queue? then [run[0].data] else [];
      assert (Datas(Packets(w)) + added) + Queued(run[1..]) == Datas(Packets(w)) + (added + Queued(run[1..]));
    }
  }

  // ---------- conservation ----------

  lemma {:induction false} DoneAndData(ps: seq<Packet>)
    requires forall i :: 0 <= i < |ps| ==> ps[i].pos <= |ps[i].data|
    ensures |AllDone(ps)| <= |AllData(Datas(ps))|
    ensures |AllDone(ps)| == |AllData(Datas(ps))| <==> forall i :: 0 <= i < |ps| ==> ps[i].pos == |ps[i].data|
    ensures |AllDone(ps)| == |AllData(Datas(ps))| ==> AllDone(ps) == AllData(Datas(ps))
  {
    if ps != [] {
      DoneAndData(ps[1..]);
      assert Datas(ps)[1..] == Datas(ps[1..]);
      assert forall i :: 0 < i < |ps| ==> ps[i] == ps[1..][i - 1];
    }
  }

  lemma {:induction false} DataConcat(a: seq<bytes>, b: seq<bytes>)
    ensures AllData(a + b) == AllData(a) + AllData(b)
  {
    if a == [] {
      assert a + b == b;
    } else {
      assert (a + b)[1..] == a[1..] + b;
      DataConcat(a[1..], b);
    }
  }

  lemma {:induction false} UntouchedLeft(ps: seq<Packet>)
    requires forall i :: 0 <= i < |ps| ==> ps[i].pos == 0
    ensures AllLeft(ps) == AllData(Datas(ps))
  {
    if ps != [] {
      UntouchedLeft(ps[1..]);
      assert Datas(ps)[1..] == Datas(ps[1..]);
    }
  }

  /** In the queue, what is done of the front packet and what is left of all is everything. */
  lemma QueueSplits(w: Writer)
    requires Inv(w)
    ensures AllDone(w.queue) + AllLeft(w.queue) == AllData(Datas(w.queue))
  {
    if w.queue != [] {
      var p, rest := w.queue[0], w.queue[1..];
      assert Packets(w)[|w.retired|] == p;
      UntouchedDone(rest);
      UntouchedLeft(rest);
      assert Datas(w.queue)[1..] == Datas(rest);
      assert Done(p) + Left(p) == p.data;
      assert AllDone(w.queue) == Done(p);
      assert Done(p) + (Left(p) + AllLeft(rest)) == p.data + AllLeft(rest);
    }
  }

  ghost predicate NothingLost(w: Writer) {
    forall i :: 0 <= i < |w.retired| ==> w.retired[i].pos == |w.retired[i].data|
  }

  /** The wire followed by the active bytes of the queue is everything that was ever queued if and only if
      every packet that left the queue had been consumed completely. */
  lemma ConservedIff(w: Writer)
    requires Inv(w)
    ensures w.wire + AllLeft(w.queue) == AllData(Datas(Packets(w))) <==> NothingLost(w)
  {
    hide AllDone, AllLeft, AllData;
    var r, q := w.retired, w.queue;
    DoneConcat(r, q);
    QueueSplits(w);
    assert Datas(Packets(w)) == Datas(r) + Datas(q);
    DataConcat(Datas(r), Datas(q));
    forall i | 0 <= i < |r| ensures r[i].pos <= |r[i].data| {
      assert Packets(w)[i] == r[i];
    }
    DoneAndData(r);
    assert w.wire + AllLeft(q) == AllDone(r) + (AllDone(q) + AllLeft(q));
  }

  /** An answer that makes the code drop the front packet. */
  predicate Fails(answer: Answer) {
    answer.HardError? || answer == Sent(0)
  }

  /** The branches that drop the front packet, at each level; dropping an empty rest loses nothing. */
  predicate AttemptLoses(w: Writer, answer: Answer) {
    w.queue != [] && Remaining(w.queue[0]) > 0 && Fails(answer)
  }

  predicate DrainLoses(w: Writer, answers: nat -> Answer, i: nat)
    decreases |w.queue|
  {
    var (w', again) := HandleQueue(w, answers(i));
    AttemptLoses(w, answers(i)) || (again && DrainLoses(w', answers, i + 1))
  }

  predicate StepLoses(w: Writer, a: Action) {
    match a
    case Queue(_) => false
    case Update(answers) => !w.closed && !w.writingAsync && DrainLoses(w, answers, 0)
    case Wakeup(answer) => w.waits > 0 && AttemptLoses(w, answer)
    case Close => false
  }

  /** Somewhere in the run an answer that fails is given to an attempt that has bytes to send. */
  predicate RunLoses(w: Writer, run: seq<Action>)
    decreases |run|
  {
    run != [] && (StepLoses(w, run[0]) || RunLoses(Step(w, run[0]), run[1..]))
  }

  /** An attempt loses bytes exactly in the failing branch, and a loss is never repaired. */
  lemma AttemptLosesIff(w: Writer, answer: Answer)
    requires Inv(w)
    ensures NothingLost(HandleQueue(w, answer).0) <==> NothingLost(w) && !AttemptLoses(w, answer)
  {
    if w.queue != [] {
      assert Packets(w)[|w.retired|] == w.queue[0];
      var size := Remaining(w.queue[0]);
      var sent := Taken(answer, size);
      if answer.HardError? || (!answer.WouldBlock? && sent == 0) {
        PopLosesIff(w);
      } else if !answer.WouldBlock? && sent == size {
        PopLosesIff(Consume(w, sent));
      }
    }
  }

  lemma PopLosesIff(w: Writer)
    requires w.queue != []
    ensures NothingLost(Pop(w)) <==> NothingLost(w) && w.queue[0].pos == |w.queue[0].data|
  {
    var r := Pop(w).retired;
    assert r[|w.retired|] == w.queue[0];
    assert forall i :: 0 <= i < |w.retired| ==> r[i] == w.retired[i];
  }

  lemma {:induction false} DrainLosesIff(w: Writer, answers: nat -> Answer, i: nat)
    requires Inv(w)
    ensures NothingLost(DrainFrom(w, answers, i)) <==> NothingLost(w) && !DrainLoses(w, answers, i)
    decreases |w.queue|
  {
    hide Inv, NothingLost, AttemptLoses;
    AttemptPreserves(w, answers(i));
    AttemptLosesIff(w, answers(i));
    var (w', again) := HandleQueue(w, answers(i));
    if again {
      DrainLosesIff(w', answers, i + 1);
    }
  }

  lemma StepLosesIff(w: Writer, a: Action)
    requires Inv(w)
    ensures NothingLost(Step(w, a)) <==> NothingLost(w) && !StepLoses(w, a)
  {
    match a {
      case Queue(_) =>
      case Update(answers) => DrainLosesIff(w, answers, 0);
      case Wakeup(answer) =>
        if w.waits > 0 {
          var w1 := w.(writingAsync := false, waits := w.waits - 1);
          assert Packets(w1) == Packets(w);
          AttemptLosesIff(w1, answer);
        }
      case Close =>
    }
  }

  lemma {:induction false} ExecLosesIff(w: Writer, run: seq<Action>)
    requires Inv(w)
    ensures NothingLost(Exec(w, run)) <==> NothingLost(w) && !RunLoses(w, run)
    decreases |run|
  {
    hide Inv, NothingLost, Step, StepLoses;
    if run != [] {
      StepPreserves(w, run[0]);
      StepLosesIff(w, run[0]);
      ExecLosesIff(Step(w, run[0]), run[1..]);
    }
  }

  ghost predicate NoFailure(run: seq<Action>) {
    forall i :: 0 <= i < |run| ==>
      match run[i]
      case Update(answers) => forall k: nat :: !Fails(answers(k))
      case Wakeup(answer) => !Fails(answer)
      case _ => true
  }

  lemma {:induction false} DrainWithoutFailure(w: Writer, answers: nat -> Answer, i: nat)
    requires forall k: nat :: !Fails(answers(k))
    ensures !DrainLoses(w, answers, i)
    decreases |w.queue|
  {
    var (w', again) := HandleQueue(w, answers(i));
    if again {
      DrainWithoutFailure(w', answers, i + 1);
    }
  }

  lemma {:induction false} RunWithoutFailure(w: Writer, run: seq<Action>)
    requires NoFailure(run)
    ensures !RunLoses(w, run)
    decreases |run|
  {
    if run != [] {
      if run[0].Update? {
        DrainWithoutFailure(w, run[0].answers, 0);
      }
      RunWithoutFailure(Step(w, run[0]), run[1..]);
    }
  }

  lemma InitInv(closing: bool)
    ensures Inv(Init(closing)) && NothingLost(Init(closing)) && Packets(Init(closing)) == []
  {
  }

  /** Over any run of queueing, partial writes, would-block answers, failing answers, wakeups and closing:
      the bytes on the wire followed by the active bytes of the queue are all queued packets in order if
      and only if no attempt with bytes to send gets a failing answer. */
  lemma ConservationExactly(closing: bool, run: seq<Action>)
    ensures var w := Exec(Init(closing), run);
            w.wire + AllLeft(w.queue) == AllData(Queued(run)) <==> !RunLoses(Init(closing), run)
  {
    hide Inv, NothingLost;
    InitInv(closing);
    ExecPreserves(Init(closing), run);
    ExecLosesIff(Init(closing), run);
    ConservedIff(Exec(Init(closing), run));
    assert Datas(Packets(Init(closing))) == [];
    assert [] + Queued(run) == Queued(run);
  }

  /** In particular nothing is lost when the operating system never fails. */
  lemma Conservation(closing: bool, run: seq<Action>)
    requires NoFailure(run)
    ensures var w := Exec(Init(closing), run);
            w.wire + AllLeft(w.queue) == AllData(Queued(run))
  {
    RunWithoutFailure(Init(closing), run);
    ConservationExactly(closing, run);
  }

  /** A run that loses a byte: one packet, and a hard error for it. */
  lemma HardErrorLoses()
    ensures var run := [Queue([1]), Update(_ => HardError)];
            var w := Exec(Init(false), run);
            w.wire + AllLeft(w.queue) == [] && AllData(Queued(run)) == [1]
  {
    var first, second := Queue([1]), Update(_ => HardError);
    var run := [first, second];
    assert run[1..] == [second] && [second][1..] == [];
    var w1 := Step(Init(false), first);
    assert w1.queue == [Packet([1], 0)];
    var w2 := Step(w1, second);
    assert w2 == DrainFrom(w1, second.answers, 0) == Pop(w1);
    assert Exec(Init(false), run) == Exec(w1, [second]) == Exec(w2, []) == w2;
    assert w2.queue == [] && w2.wire == [];
    assert Queued([second]) == [] + Queued([]) == [];
    assert Queued(run) == [[1]] + [] == [[1]];
    assert AllData([[1]]) == [1] + AllData([]);
  }

  /** Whatever the answers are: every packet is on the wire with one prefix, in order; packets leave the
      queue in order; only the front packet is partly consumed; at most one wait is outstanding. */
  lemma WireIsPrefixes(closing: bool, run: seq<Action>)
    ensures var w := Exec(Init(closing), run);
            && w.wire == AllDone(w.retired + w.queue)
            && Datas(w.retired + w.queue) == Queued(run)
            && (forall i :: 0 < i < |w.queue| ==> w.queue[i].pos == 0)
            && w.waits == (if w.writingAsync then 1 else 0)
  {
    InitInv(closing);
    ExecPreserves(Init(closing), run);
    assert Datas(Packets(Init(closing))) == [];
    assert [] + Queued(run) == Queued(run);
  }

  /** While a wait is outstanding, only its callback writes: any number of updates, queued packets and a close
      in between leave the wire and the packets in front alone. */
  lemma {:induction false} WaitIsExclusive(w: Writer, run: seq<Action>)
    requires w.writingAsync && forall i :: 0 <= i < |run| ==> !run[i].Wakeup?
    ensures var w' := Exec(w, run);
            w'.writingAsync && w'.waits == w.waits && w'.wire == w.wire && w'.retired == w.retired && w.queue <= w'.queue
    decreases |run|
  {
    if run != [] {
      var w1 := Step(w, run[0]);
      WaitIsExclusive(w1, run[1..]);
      assert w.queue <= w1.queue <= Exec(w1, run[1..]).queue;
    }
  }

  /** After closing nothing new is started: at most the packet of an outstanding wait is still sent, and
      without a wait nothing is.  Packets queued later, and those behind the front, never leave. */
  lemma {:induction false} ClosedIsFinal(w: Writer, run: seq<Action>)
    requires w.closed && w.waits == (if w.writingAsync then 1 else 0)
    ensures var w' := Exec(w, run);
            && w'.closed
            && |w'.retired| <= |w.retired| + (if w.writingAsync then 1 else 0)
            && (!w.writingAsync ==> w'.wire == w.wire && w'.retired == w.retired && w.queue <= w'.queue)
    decreases |run|
  {
    if run != [] {
      var w1 := Step(w, run[0]);
      ClosedStep(w, run[0]);
      ClosedIsFinal(w1, run[1..]);
      if !w.writingAsync {
        assert w.queue <= w1.queue <= Exec(w1, run[1..]).queue;
      }
    }
  }

  lemma ClosedStep(w: Writer, a: Action)
    requires w.closed && w.waits == (if w.writingAsync then 1 else 0)
    ensures var w' := Step(w, a);
            && w'.closed && w'.waits == (if w'.writingAsync then 1 else 0)
            && (!w.writingAsync ==>
                  !w'.writingAsync && w'.wire == w.wire && w'.retired == w.retired && w.queue <= w'.queue)
            && (w.writingAsync ==> |w'.retired| + (if w'.writingAsync then 1 else 0) <= |w.retired| + 1)
  {
  }

  /** Every queued packet still has something to send; send_packet queues no empty packets. */
  ghost predicate NoneEmpty(w: Writer) {
    forall i :: 0 <= i < |w.queue| ==> Remaining(w.queue[i]) > 0
  }

  lemma {:induction false} DrainKeepsNoneEmpty(w: Writer, answers: nat -> Answer, i: nat)
    requires NoneEmpty(w)
    ensures NoneEmpty(DrainFrom(w, answers, i))
    decreases |w.queue|
  {
    var (w', again) := HandleQueue(w, answers(i));
    if again {
      DrainKeepsNoneEmpty(w', answers, i + 1);
    }
  }

  lemma {:induction false} ExecKeepsNoneEmpty(w: Writer, run: seq<Action>)
    requires NoneEmpty(w) && forall i :: 0 <= i < |run| && run[i].Queue? ==> run[i].data != []
    ensures NoneEmpty(Exec(w, run))
    decreases |run|
  {
    if run != [] {
      match run[0] {
        case Queue(_) =>
        case Update(answers) => DrainKeepsNoneEmpty(w, answers, 0);
        case Wakeup(_) =>
        case Close =>
      }
      ExecKeepsNoneEmpty(Step(w, run[0]), run[1..]);
    }
  }

  /** Nothing is stranded: after the loop of an update without a failing answer, the queue is empty or a
      wait is outstanding that will write on. */
  lemma {:induction false} DrainEnds(w: Writer, answers: nat -> Answer, i: nat)
    requires NoneEmpty(w) && forall k: nat :: !Fails(answers(k))
    ensures var w' := DrainFrom(w, answers, i);
            NoneEmpty(w') && (w'.queue == [] || w'.writingAsync)
    decreases |w.queue|
  {
    var (w', again) := HandleQueue(w, answers(i));
    if again {
      DrainEnds(w', answers, i + 1);
    }
  }

  /** Whatever happened before: once update has run on an open socket without a failing answer, everything
      queued is on its way, because the queue is empty or a wait is outstanding. */
  lemma UpdateStrandsNothing(closing: bool, run: seq<Action>, answers: nat -> Answer)
    requires forall i :: 0 <= i < |run| && run[i].Queue? ==> run[i].data != []
    requires forall k: nat :: !Fails(answers(k))
    ensures var w := Exec(Init(closing), run);
            var w' := UpdateStep(w, answers).0;
            !w.closed ==> w'.queue == [] || w'.writingAsync
  {
    ExecKeepsNoneEmpty(Init(closing), run);
    DrainEnds(Exec(Init(closing), run), answers, 0);
  }

  // ---------- one attempt, field by field ----------

  /** The front packet leaves the queue with nothing put on the wire; a closing socket whose queue is now empty
      closes. */
  predicate Dropped(w: Writer, w': Writer, front: Packet) {
    && w.queue != [] && w'.queue == w.queue[1..] && w'.retired == w.retired + [front]
    && w'.writingAsync == w.writingAsync && w'.waits == w.waits
    && (w'.closed <==> w.closed || (w.closing && w'.queue == []))
  }

  /** What an attempt does for each answer: nothing is written and a wait begins; the packet is dropped after an
      error or when nothing was taken; a part goes out and a wait begins; or the rest goes out, the packet
      leaves, and another attempt follows if and only if packets are left. */
  lemma AttemptEffect(w: Writer, answer: Answer)
    requires w.queue != [] && w.queue[0].pos <= |w.queue[0].data|
    ensures var p := w.queue[0];
            var left := p.data[p.pos..];
            var (w', again) := HandleQueue(w, answer);
            if answer.WouldBlock? then
              !again && w' == w.(writingAsync := true, waits := w'.waits) && w'.waits == w.waits + (if w.writingAsync then 0 else 1)
            else if answer.HardError? || answer.n == 0 || left == [] then
              !again && w'.wire == w.wire && Dropped(w, w', p)
            else if answer.n < |left| then
              && !again && w'.wire == w.wire + left[..answer.n] && w'.writingAsync && w'.closed == w.closed
              && w'.queue == [Packet(p.data, p.pos + answer.n)] + w.queue[1..] && w'.retired == w.retired
              && w'.waits == w.waits + (if w.writingAsync then 0 else 1)
            else
              && (again <==> |w.queue| > 1) && w'.wire == w.wire + left && Dropped(w, w', Packet(p.data, |p.data|))
  {
    var p := w.queue[0];
    assert w.queue == [p] + w.queue[1..];
    assert p.data[p.pos..|p.data|] == p.data[p.pos..];
    assert forall n :: 0 <= n <= |p.data| - p.pos ==> p.data[p.pos..p.pos + n] == p.data[p.pos..][..n];
  }

  // ---------- closing ----------

  /** The last packet of a closing socket has left the queue. */
  predicate LastLeft(w: Writer, w': Writer) {
    w.closing && w'.queue == [] && |w'.retired| > |w.retired|
  }

  lemma {:induction false} DrainCloses(w: Writer, answers: nat -> Answer, i: nat)
    ensures var w' := DrainFrom(w, answers, i);
            && w'.closing == w.closing && |w'.retired| >= |w.retired|
            && |w'.retired| + |w'.queue| == |w.retired| + |w.queue|
            && (w'.closed <==> w.closed || LastLeft(w, w'))
    decreases |w.queue|
  {
    var (w', again) := HandleQueue(w, answers(i));
    if again {
      DrainCloses(w', answers, i + 1);
    }
  }

  /** A step closes a socket if and only if it is the read side's close or takes the last packet of a closing one. */
  lemma StepClosesIff(w: Writer, a: Action)
    ensures var w' := Step(w, a);
            && w'.closing == w.closing
            && (w'.closed <==> w.closed || a.Close? || LastLeft(w, w'))
  {
    hide DrainFrom;
    if a.Update? {
      DrainCloses(w, a.answers, 0);
    }
  }

  predicate RunCloses(w: Writer, run: seq<Action>)
    decreases |run|
  {
    run != [] && (run[0].Close? || LastLeft(w, Step(w, run[0])) || RunCloses(Step(w, run[0]), run[1..]))
  }

  lemma {:induction false} ClosedIff(w: Writer, run: seq<Action>)
    ensures Exec(w, run).closing == w.closing
    ensures Exec(w, run).closed <==> w.closed || RunCloses(w, run)
    decreases |run|
  {
    hide Step, LastLeft;
    if run != [] {
      StepClosesIff(w, run[0]);
      ClosedIff(Step(w, run[0]), run[1..]);
    }
  }

  /** What an update tells the worker: after every run, it answers that the socket is alive if and only if no step
      of the run has closed it, whether it is idle, waits or has something to write. */
  lemma AliveIff(closing: bool, run: seq<Action>, answers: nat -> Answer)
    ensures UpdateStep(Exec(Init(closing), run), answers).1 <==> !RunCloses(Init(closing), run)
    ensures !closing ==> (RunCloses(Init(closing), run) <==> Close in run)
  {
    hide Step, Exec, RunCloses, DrainFrom;
    ClosedIff(Init(closing), run);
    if !closing {
      OnlyClose(Init(closing), run);
    }
  }

  lemma {:induction false} OnlyClose(w: Writer, run: seq<Action>)
    requires !w.closing
    ensures RunCloses(w, run) <==> Close in run
    decreases |run|
  {
    hide Step;
    if run != [] {
      StepClosesIff(w, run[0]);
      OnlyClose(Step(w, run[0]), run[1..]);
    }
  }

  // ---------- everything gets out ----------

  /** The operating system takes whatever these packets offer. */
  predicate TakesAll(answer: Answer, ps: seq<Packet>) {
    answer.Sent? && forall i :: 0 <= i < |ps| ==> |ps[i].data| <= answer.n
  }

  ghost predicate Sound(w: Writer) {
    NoneEmpty(w) && forall i :: 0 <= i < |w.queue| ==> w.queue[i].pos <= |w.queue[i].data|
  }

  /** An attempt on a front packet that is taken completely. */
  lemma AttemptSends(w: Writer, answer: Answer)
    requires Sound(w) && w.queue != [] && TakesAll(answer, w.queue)
    ensures var (w', again) := HandleQueue(w, answer);
            && w'.queue == w.queue[1..] && w'.wire == w.wire + Left(w.queue[0]) && Sound(w')
            && w'.writingAsync == w.writingAsync && w'.waits == w.waits && (again <==> w'.queue != [])
  {
    AttemptEffect(w, answer);
  }

  lemma {:induction false} DrainSendsAll(w: Writer, answers: nat -> Answer, i: nat)
    requires Sound(w) && forall k: nat :: TakesAll(answers(k), w.queue)
    ensures var w' := DrainFrom(w, answers, i);
            w'.queue == [] && w'.wire == w.wire + AllLeft(w.queue) && w'.writingAsync == w.writingAsync
    decreases |w.queue|
  {
    hide AllLeft, HandleQueue, DrainFrom, Sound, Left;
    NothingLeft();
    DrainUnfolds(w, answers, i);
    if w.queue != [] {
      AllLeftFront(w.queue);
      AttemptSends(w, answers(i));
      var (w', again) := HandleQueue(w, answers(i));
      if again {
        forall k: nat ensures TakesAll(answers(k), w'.queue) {
          assert TakesAll(answers(k), w.queue);
        }
        DrainSendsAll(w', answers, i + 1);
      }
      assert (w.wire + Left(w.queue[0])) + AllLeft(w.queue[1..]) == w.wire + (Left(w.queue[0]) + AllLeft(w.queue[1..]));
    } else {
      NoAttempt(w, answers(i));
    }
  }

  lemma NoAttempt(w: Writer, answer: Answer)
    requires w.queue == []
    ensures HandleQueue(w, answer) == (w, false)
  {
  }

  lemma NothingLeft()
    ensures AllLeft([]) == []
  {
  }

  lemma AllLeftFront(ps: seq<Packet>)
    requires ps != []
    ensures AllLeft(ps) == Left(ps[0]) + AllLeft(ps[1..])
  {
  }

  /** The callback of a wait sends the rest of the front packet when the operating system takes it. */
  lemma WakeupSends(w: Writer, answer: Answer)
    requires Sound(w) && w.queue != [] && w.waits > 0 && TakesAll(answer, w.queue)
    ensures var w' := WakeupStep(w, answer);
            w'.wire == w.wire + Left(w.queue[0]) && w'.queue == w.queue[1..] && !w'.writingAsync && w'.waits == w.waits - 1
  {
    AttemptSends(w.(writingAsync := false, waits := w.waits - 1), answer);
  }

  /** From every run that nothing closes and in which no answer fails: if the wait, should there be one, ends and
      then the worker ticks, and the operating system takes what it is offered, then the wire is everything that was
      ever queued, in order. */
  lemma EverythingGetsOut(run: seq<Action>, answer: Answer, answers: nat -> Answer)
    requires NoFailure(run) && Close !in run
    requires forall i :: 0 <= i < |run| && run[i].Queue? ==> run[i].data != []
    requires var queue := Exec(Init(false), run).queue; TakesAll(answer, queue) && forall k: nat :: TakesAll(answers(k), queue)
    ensures var (w, alive) := UpdateStep(WakeupStep(Exec(Init(false), run), answer), answers);
            alive && w.wire == AllData(Queued(run)) && w.queue == [] && !w.writingAsync
  {
    hide Exec, AllLeft, AllData, NoFailure, DrainFrom, HandleQueue, RunCloses;
    var w := Exec(Init(false), run);
    Conservation(false, run);
    WireIsPrefixes(false, run);
    ExecKeepsNoneEmpty(Init(false), run);
    ExecIsSound(run);
    AliveIff(false, run, answers);
    ClosedIff(Init(false), run);
    FlushIs(w, answer, answers);
  }

  lemma ExecIsSound(run: seq<Action>)
    requires NoneEmpty(Exec(Init(false), run))
    ensures Sound(Exec(Init(false), run))
  {
    hide Exec, NoneEmpty;
    InitInv(false);
    ExecPreserves(Init(false), run);
    var w := Exec(Init(false), run);
    forall i | 0 <= i < |w.queue| ensures w.queue[i].pos <= |w.queue[i].data| {
      assert Packets(w)[|w.retired| + i] == w.queue[i];
    }
  }

  lemma FlushIs(w: Writer, answer: Answer, answers: nat -> Answer)
    requires Sound(w) && !w.closed && !w.closing && w.waits == (if w.writingAsync then 1 else 0)
    requires TakesAll(answer, w.queue) && forall k: nat :: TakesAll(answers(k), w.queue)
    ensures var (w', alive) := UpdateStep(WakeupStep(w, answer), answers);
            alive && w'.queue == [] && !w'.writingAsync && w'.wire == w.wire + AllLeft(w.queue)
  {
    hide AllLeft, DrainFrom, HandleQueue;
    var w1 := WakeupStep(w, answer);
    NothingLeft();
    WakeupIsOpen(w, answer);
    if w.queue != [] {
      AllLeftFront(w.queue);
      if w.waits > 0 {
        WakeupSends(w, answer);
        assert (w.wire + Left(w.queue[0])) + AllLeft(w.queue[1..]) == w.wire + (Left(w.queue[0]) + AllLeft(w.queue[1..]));
      }
    }
    forall k: nat ensures TakesAll(answers(k), w1.queue) {
      assert TakesAll(answers(k), w.queue);
    }
    DrainSendsAll(w1, answers, 0);
    assert w1.wire + [] == w1.wire;
  }

  lemma WakeupIsOpen(w: Writer, answer: Answer)
    requires !w.closed && !w.closing
    ensures !WakeupStep(w, answer).closed && !WakeupStep(w, answer).closing
    ensures w.queue == [] ==> WakeupStep(w, answer) == if w.waits == 0 then w else w.(writingAsync := false, waits := w.waits - 1)
  {
  }
}
