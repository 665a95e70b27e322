/** The intrusive queue as a transition system: every atomic load, store and exchange of
    `enqueue` and `dequeue` is one step, producers and the owners of the nodes interleave
    freely with the one consumer, and memory is sequentially consistent.

    The dummy node is node 0.  The consumer's own `enqueue(m_dummy_ptr)` uses the same steps
    as a producer's enqueue. */
module IntrusiveQueue {
  import opened Wrappers
  import opened LinkChain

  const DUMMY: Node := 0

  /** Where the consumer stands.  Each name is the atomic access to be executed next, together with
      the local variables that are still needed. */
  datatype Pc =
    | Idle(last: Option<Node>)              // outside dequeue, with the outcome of the last call
    | AtNext(tail: Node)                    // load the link of the tail
    | AtSkip(next: Node)                    // move the tail past the dummy
    | AtReload(tail: Node)                  // load the link of the node behind the dummy
    | AtAdvance(tail: Node, next: Node)     // move the tail and return the former tail
    | AtHead(tail: Node)                    // load the head
    | AtEnqueue(tail: Node)                 // inside enqueue of the dummy
    | AtRetry(tail: Node)                   // load the link of the tail once more

  datatype State = State(c: Chain, pc: Pc, delivered: seq<Node>)

  datatype Action =
    | Create(node: Node, garbage: Option<Node>) // an owner allocates a node, link uninitialised
    | Destroy(node: Node)                       // an owner deletes a node it holds
    | Begin(p: nat, node: Node)                 // a producer enters enqueue and clears the link
    | Exchange(p: nat)
    | Publish(p: nat)
    | Consume                                   // the consumer executes its next access

  function Init(): State {
    State(Single(DUMMY), Idle(None), [])
  }

  // ---------- steps ----------

  function AfterNext(s: State, tail: Node, next: Option<Node>): State {
    s.(pc := if next.Some? then AtAdvance(tail, next.value) else AtHead(tail))
  }

  function EnqueueDummy(s: State, tail: Node): State {
    if Consumer !in s.c.writers then s.(c := Clear(s.c, Consumer, DUMMY))
    else if s.c.writers[Consumer].Cleared? then s.(c := Swap(s.c, Consumer))
    else s.(c := Join(s.c, Consumer), pc := AtRetry(tail))
  }

  function ConsumerStep(s: State): State {
    match s.pc
    case Idle(_) => s.(pc := AtNext(s.c.tail))
    case AtNext(t) =>
      var next := Load(s.c, t);
      if t != DUMMY then AfterNext(s, t, next)
      else s.(pc := if next.Some? then AtSkip(next.value) else Idle(None))
    case AtSkip(n) => s.(c := Advance(s.c, n), pc := AtReload(n))
    case AtReload(t) => AfterNext(s, t, Load(s.c, t))
    case AtAdvance(t, n) => s.(c := Advance(s.c, n), pc := Idle(Some(t)), delivered := s.delivered + [t])
    case AtHead(t) => s.(pc := if t == s.c.head then AtEnqueue(t) else Idle(None))
    case AtEnqueue(t) => EnqueueDummy(s, t)
    case AtRetry(t) =>
      var next := Load(s.c, t);
      s.(pc := if next.Some? then AtAdvance(t, next.value) else Idle(None))
  }

  /** The only obligation on callers: a node handed to enqueue, or destroyed, is not in the queue. */
  ghost predicate Enabled(s: State, a: Action) {
    match a
    case Create(n, _) => n !in s.c.link
    case Destroy(n) => n in s.c.link && n != DUMMY && Outside(s.c, n)
    case Begin(p, n) => Producer(p) !in s.c.writers && n in s.c.link && n != DUMMY && Outside(s.c, n)
    case Exchange(p) => CanSwap(s.c, Producer(p))
    case Publish(p) => CanJoin(s.c, Producer(p))
    case Consume => true
  }

  /** A step that is not enabled leaves the state as it is. */
  ghost function Step(s: State, a: Action): State {
    if !Enabled(s, a) then s else
    match a
    case Create(n, g) => s.(c := s.c.(link := s.c.link[n := g]))
    case Destroy(n) => s.(c := s.c.(link := s.c.link - {n}))
    case Begin(p, n) => s.(c := Clear(s.c, Producer(p), n))
    case Exchange(p) => s.(c := Swap(s.c, Producer(p)))
    case Publish(p) => s.(c := Join(s.c, Producer(p)))
    case Consume => ConsumerStep(s)
  }

  ghost function Exec(s: State, run: seq<Action>): State
    decreases |run|
  {
    if run == [] then s else Exec(Step(s, run[0]), run[1..])
  }

  // ---------- invariant ----------

  function WithoutDummy(ns: seq<Node>): seq<Node> {
    if ns == [] then []
    else WithoutDummy(ns[..|ns| - 1]) + (if ns[|ns| - 1] == DUMMY then [] else [ns[|ns| - 1]])
  }

  /** The nodes enqueued and not yet delivered, oldest first. */
  function Pending(s: State): seq<Node>
    requires s.c.popped <= |s.c.log|
  {
    WithoutDummy(s.c.log[s.c.popped..])
  }

  ghost predicate DummyOk(s: State) {
    && DUMMY in s.c.link
    && (forall w :: w in s.c.writers ==> (s.c.writers[w].node == DUMMY <==> w == Consumer))
    && (Consumer in s.c.writers ==> s.pc.AtEnqueue?)
  }

  ghost predicate PcOk(s: State) {
    match s.pc
    case Idle(_) => true
    case AtNext(t) => t == s.c.tail
    case AtSkip(n) => s.c.tail == DUMMY && Load(s.c, DUMMY) == Some(n)
    case AtReload(t) => t == s.c.tail && t != DUMMY
    case AtAdvance(t, n) => t == s.c.tail && t != DUMMY && Load(s.c, t) == Some(n)
    case AtHead(t) => t == s.c.tail && t != DUMMY
    case AtEnqueue(t) =>
      && t == s.c.tail && t != DUMMY
      && (CanJoin(s.c, Consumer) || !InChain(s.c, DUMMY))
    case AtRetry(t) => t == s.c.tail && t != DUMMY
  }

  ghost predicate Inv(s: State) {
    && WellFormed(s.c)
    && DummyOk(s)
    && PcOk(s)
    && s.delivered == WithoutDummy(s.c.log[..s.c.popped])
  }

  lemma InitInv()
    ensures Inv(Init())
  {
    SingleWellFormed(DUMMY);
  }

  lemma AdvanceInv(s: State)
    requires Inv(s) && (s.pc.AtSkip? || s.pc.AtAdvance?)
    ensures Inv(ConsumerStep(s))
  {
    var c := s.c;
    AdvancePreserves(c, s.pc.next);
    assert c.log[..c.popped + 1] == c.log[..c.popped] + [c.tail];
    WithoutDummyOne(c.tail);
    WithoutDummyConcat(c.log[..c.popped], [c.tail]);
  }

  lemma EnqueueDummyInv(s: State)
    requires Inv(s) && s.pc.AtEnqueue?
    ensures Inv(ConsumerStep(s))
  {
    var c, c' := s.c, ConsumerStep(s).c;
    ChainGrows(c, c', DUMMY);
    assert c'.log[..c.popped] == c.log[..c.popped];
    if Consumer !in c.writers {
      ClearPreserves(c, Consumer, DUMMY);
      assert c'.log[|c.log|..] == [];
    } else if c.writers[Consumer].Cleared? {
      SwapPreserves(c, Consumer);
    } else {
      JoinPreserves(c, Consumer);
    }
  }

  /** The decisions of the consumer: at the head the chain is the tail alone, so the dummy is absent. */
  lemma LoadInv(s: State)
    requires Inv(s) && !s.pc.AtSkip? && !s.pc.AtAdvance? && !s.pc.AtEnqueue?
    ensures Inv(ConsumerStep(s))
  {
    hide Edges, Distinct;
    TailLink(s.c);
  }

  lemma ConsumerPreserves(s: State)
    requires Inv(s)
    ensures Inv(ConsumerStep(s))
  {
    hide Inv;
    if s.pc.AtSkip? || s.pc.AtAdvance? {
      AdvanceInv(s);
    } else if s.pc.AtEnqueue? {
      EnqueueDummyInv(s);
    } else {
      LoadInv(s);
    }
  }

  /** What every step of a producer or an owner leaves alone, and why the invariant survives it. */
  lemma OthersPreserve(s: State, c': Chain, added: seq<Node>)
    requires Inv(s) && WellFormed(c')
    requires c'.log == s.c.log + added && c'.popped == s.c.popped
    requires forall i :: 0 <= i < |added| ==> added[i] != DUMMY
    requires s.pc.AtSkip? || s.pc.AtAdvance? ==> Load(c', s.c.tail) == Load(s.c, s.c.tail)
    requires Consumer in s.c.writers <==> Consumer in c'.writers
    requires Consumer in s.c.writers ==> c'.writers[Consumer] == s.c.writers[Consumer]
    requires DUMMY in c'.link
    requires forall w :: w in c'.writers && w != Consumer ==> c'.writers[w].node != DUMMY
    ensures Inv(s.(c := c'))
  {
    assert c'.log[..c'.popped] == s.c.log[..s.c.popped];
    assert c'.log[c'.popped] == s.c.log[s.c.popped];
    assert c'.log[|s.c.log|..] == added;
    ChainGrows(s.c, c', DUMMY);
  }

  /** A link that has been stored in the tail is not written by producers. */
  lemma StoredLinkIsStable(c: Chain, w: Writer)
    requires WellFormed(c) && w in c.writers
    ensures c.writers[w].Cleared? ==> c.writers[w].node != c.tail
    ensures c.writers[w].Swapped? && Load(c, c.tail).Some? ==> c.writers[w].prev != c.tail
  {
    assert WriterOk(c, w) && InChain(c, c.tail);
  }

  lemma OwnerPreserves(s: State, a: Action)
    requires Inv(s) && (a.Create? || a.Destroy?) && Enabled(s, a)
    ensures Inv(Step(s, a))
  {
    var c' := Step(s, a).c;
    if a.Create? {
      DeadIsOutside(s.c, a.node);
    }
    assert InChain(s.c, s.c.tail);
    HeapChangePreserves(s.c, a.node, c'.link);
    assert c'.log == s.c.log + [];
    OthersPreserve(s, c', []);
  }

  lemma ProducerPreserves(s: State, a: Action)
    requires Inv(s) && (a.Begin? || a.Exchange? || a.Publish?) && Enabled(s, a)
    ensures Inv(Step(s, a))
  {
    var c' := Step(s, a).c;
    assert InChain(s.c, s.c.tail);
    if a.Begin? {
      ClearPreserves(s.c, Producer(a.p), a.node);
      assert c'.log == s.c.log + [];
      OthersPreserve(s, c', []);
    } else if a.Exchange? {
      SwapPreserves(s.c, Producer(a.p));
      OthersPreserve(s, c', [s.c.writers[Producer(a.p)].node]);
    } else {
      JoinPreserves(s.c, Producer(a.p));
      StoredLinkIsStable(s.c, Producer(a.p));
      assert c'.log == s.c.log + [];
      OthersPreserve(s, c', []);
    }
  }

  lemma StepPreserves(s: State, a: Action)
    requires Inv(s)
    ensures Inv(Step(s, a))
  {
    if Enabled(s, a) {
      if a.Consume? {
        ConsumerPreserves(s);
      } else if a.Create? || a.Destroy? {
        OwnerPreserves(s, a);
      } else {
        ProducerPreserves(s, a);
      }
    }
  }

  lemma {:induction false} ExecInv(s: State, run: seq<Action>)
    requires Inv(s)
    ensures Inv(Exec(s, run))
    decreases |run|
  {
    if run != [] {
      StepPreserves(s, run[0]);
      ExecInv(Step(s, run[0]), run[1..]);
    }
  }

  lemma ReachableInv(run: seq<Action>)
    ensures Inv(Exec(Init(), run))
  {
    InitInv();
    ExecInv(Init(), run);
  }

  // ---------- first in, first out, exactly once ----------

  lemma {:induction false} WithoutDummyConcat(a: seq<Node>, b: seq<Node>)
    ensures WithoutDummy(a + b) == WithoutDummy(a) + WithoutDummy(b)
    decreases |b|
  {
    if b == [] {
      assert a + b == a;
    } else {
      var b' := b[..|b| - 1];
      assert (a + b)[..|a + b| - 1] == a + b';
      WithoutDummyConcat(a, b');
    }
  }

  /** The node a step puts into the queue: producers order themselves by their exchange of the head. */
  ghost function Input(s: State, a: Action): seq<Node> {
    if a.Exchange? && Enabled(s, a) then [s.c.writers[Producer(a.p)].node] else []
  }

  /** The node a step returns from dequeue. */
  ghost function Output(s: State, a: Action): seq<Node> {
    var pc' := Step(s, a).pc;
    if a.Consume? && pc'.Idle? && pc'.last.Some? then [pc'.last.value] else []
  }

  ghost function Inputs(s: State, run: seq<Action>): seq<Node>
    decreases |run|
  {
    if run == [] then [] else Input(s, run[0]) + Inputs(Step(s, run[0]), run[1..])
  }

  ghost function Outputs(s: State, run: seq<Action>): seq<Node>
    decreases |run|
  {
    if run == [] then [] else Output(s, run[0]) + Outputs(Step(s, run[0]), run[1..])
  }

  lemma WithoutDummyOne(n: Node)
    ensures WithoutDummy([n]) == if n == DUMMY then [] else [n]
  {
    assert [n][..0] == [];
  }

  lemma SwapAppends(s: State, w: Writer)
    requires WellFormed(s.c) && CanSwap(s.c, w)
    ensures WithoutDummy(Swap(s.c, w).log[s.c.popped..])
         == Pending(s) + WithoutDummy([s.c.writers[w].node])
  {
    var n := s.c.writers[w].node;
    assert Swap(s.c, w).log[s.c.popped..] == s.c.log[s.c.popped..] + [n];
    WithoutDummyConcat(s.c.log[s.c.popped..], [n]);
  }

  lemma AdvanceRemoves(s: State, n: Node)
    requires WellFormed(s.c) && s.c.popped + 1 < |s.c.log|
    ensures Pending(s) == WithoutDummy([s.c.tail]) + WithoutDummy(Advance(s.c, n).log[s.c.popped + 1..])
  {
    assert s.c.log[s.c.popped..] == [s.c.tail] + s.c.log[s.c.popped + 1..];
    WithoutDummyConcat([s.c.tail], s.c.log[s.c.popped + 1..]);
  }

  lemma AdvanceRefinesFifo(s: State)
    requires Inv(s) && (s.pc.AtSkip? || s.pc.AtAdvance?)
    ensures Pending(s) == Output(s, Consume) + Pending(ConsumerStep(s))
  {
    hide WellFormed, WithoutDummy, Exec;
    TailLink(s.c);
    WithoutDummyOne(s.c.tail);
    AdvanceRemoves(s, s.pc.next);
    NothingLeft();
  }

  lemma NothingLeft()
    ensures WithoutDummy([]) == []
  {
  }

  lemma EnqueueDummyRefinesFifo(s: State)
    requires Inv(s) && s.pc.AtEnqueue?
    ensures Pending(s) == Pending(ConsumerStep(s))
  {
    if CanSwap(s.c, Consumer) {
      WithoutDummyOne(DUMMY);
      SwapAppends(s, Consumer);
    }
  }

  lemma ConsumerRefinesFifo(s: State)
    requires Inv(s)
    ensures Pending(s) == Output(s, Consume) + Pending(ConsumerStep(s))
    ensures ConsumerStep(s).delivered == s.delivered + Output(s, Consume)
    ensures DUMMY !in Output(s, Consume)
  {
    match s.pc {
      case AtSkip(_) => AdvanceRefinesFifo(s);
      case AtAdvance(_, _) => AdvanceRefinesFifo(s);
      case AtEnqueue(_) => EnqueueDummyRefinesFifo(s);
      case _ =>
    }
  }

  /** One step of an abstract first-in first-out queue: its input goes to the back, its output comes
      from the front, and no step does both. */
  lemma StepRefinesFifo(s: State, a: Action)
    requires Inv(s)
    ensures Inv(Step(s, a))
    ensures Pending(s) + Input(s, a) == Output(s, a) + Pending(Step(s, a))
    ensures Input(s, a) == [] || Output(s, a) == []
    ensures Step(s, a).delivered == s.delivered + Output(s, a)
    ensures DUMMY !in Output(s, a)
  {
    StepPreserves(s, a);
    if a.Consume? {
      ConsumerRefinesFifo(s);
    } else if a.Exchange? && Enabled(s, a) {
      SwapAppends(s, Producer(a.p));
      WithoutDummyOne(s.c.writers[Producer(a.p)].node);
    }
  }

  /** Conservation over any run from any good state. */
  lemma {:induction false} RunConserves(s: State, run: seq<Action>)
    requires Inv(s)
    ensures Inv(Exec(s, run))
    ensures Pending(s) + Inputs(s, run) == Outputs(s, run) + Pending(Exec(s, run))
    ensures DUMMY !in Outputs(s, run)
    decreases |run|
  {
    if run != [] {
      var s1 := Step(s, run[0]);
      StepRefinesFifo(s, run[0]);
      RunConserves(s1, run[1..]);
      Splice(Pending(s), Input(s, run[0]), Output(s, run[0]), Pending(s1),
             Inputs(s1, run[1..]), Outputs(s1, run[1..]), Pending(Exec(s, run)));
    }
  }

  /** First in, first out, exactly once: under every interleaving the nodes returned by dequeue are
      a prefix of the nodes that producers swapped into the head, in that order, the remainder of
      that order is exactly what the queue still holds, and the dummy is never returned. */
  lemma FifoExactlyOnce(run: seq<Action>)
    ensures Inv(Exec(Init(), run))
    ensures Inputs(Init(), run) == Outputs(Init(), run) + Pending(Exec(Init(), run))
    ensures DUMMY !in Outputs(Init(), run)
  {
    InitInv();
    RunConserves(Init(), run);
    assert Init().c.log[0..] == [DUMMY] && [DUMMY][..0] == [];
    assert Pending(Init()) == [];
  }

  // ---------- the dummy ----------

  ghost predicate OnceInChain(c: Chain, n: Node) {
    forall i, j :: c.popped <= i < |c.log| && c.popped <= j < |c.log| && c.log[i] == n && c.log[j] == n ==> i == j
  }

  /** In every reachable state the dummy occurs at most once in the chain, and whenever the consumer
      is about to clear or to swap in the dummy, the chain does not contain it. */
  lemma DummyUnique(run: seq<Action>)
    ensures var s := Exec(Init(), run);
            && OnceInChain(s.c, DUMMY)
            && (s.pc.AtEnqueue? && !CanJoin(s.c, Consumer) ==> !InChain(s.c, DUMMY))
            && (forall p :: Producer(p) in s.c.writers ==> s.c.writers[Producer(p)].node != DUMMY)
  {
    ReachableInv(run);
    var s := Exec(Init(), run);
  }

  // ---------- memory safety and reclamation ----------

  /** The nodes whose link the step reads or writes. */
  ghost function Touches(s: State, a: Action): set<Node> {
    if !Enabled(s, a) then {} else
    match a
    case Create(n, _) => {}
    case Destroy(n) => {n}
    case Begin(_, n) => {n}
    case Exchange(_) => {}
    case Publish(p) => {s.c.writers[Producer(p)].prev}
    case Consume =>
      match s.pc
      case AtNext(t) => {t}
      case AtReload(t) => {t}
      case AtRetry(t) => {t}
      case AtEnqueue(_) =>
        if Consumer !in s.c.writers then {DUMMY}
        else if s.c.writers[Consumer].Swapped? then {s.c.writers[Consumer].prev}
        else {}
      case _ => {}
  }

  /** No step of any run reads or writes the link of a node that has been destroyed. */
  lemma NoUseAfterFree(run: seq<Action>, a: Action)
    ensures forall n :: n in Touches(Exec(Init(), run), a) ==> n in Exec(Init(), run).c.link
  {
    ReachableInv(run);
    var s := Exec(Init(), run);
    TailLink(s.c);
    if Enabled(s, a) {
      if a.Publish? {
        JoinPreserves(s.c, Producer(a.p));
      } else if a.Consume? && CanJoin(s.c, Consumer) {
        JoinPreserves(s.c, Consumer);
      }
    }
  }

  /** When dequeue hands a node back, nothing inside the queue refers to it. */
  lemma HandedBackIsUnreferenced(run: seq<Action>)
    ensures var s := Exec(Init(), run);
            Output(s, Consume) != [] ==> Unreferenced(Step(s, Consume).c, Output(s, Consume)[0])
  {
    ReachableInv(run);
    var s := Exec(Init(), run);
    if Output(s, Consume) != [] {
      TailLink(s.c);
      assert s.pc.AtAdvance?;
      AdvancePreserves(s.c, s.pc.next);
    }
  }

  predicate Claims(a: Action, n: Node) {
    (a.Begin? || a.Destroy? || a.Create?) && a.node == n
  }

  lemma ConsumerStaysOutside(s: State, n: Node)
    requires n != DUMMY && Outside(s.c, n)
    ensures Outside(ConsumerStep(s).c, n)
  {
    hide InChain;
    ChainGrows(s.c, ConsumerStep(s).c, n);
  }

  lemma StaysOutside(s: State, a: Action, n: Node)
    requires n != DUMMY && Outside(s.c, n) && !Claims(a, n)
    ensures Outside(Step(s, a).c, n)
  {
    hide InChain, ConsumerStep;
    if a.Consume? {
      ConsumerStaysOutside(s, n);
    } else {
      ChainGrows(s.c, Step(s, a).c, n);
    }
  }

  /** The owner of a node outside the queue keeps it to itself: until some producer begins to
      enqueue it again, no step of the queue touches it and every step leaves it outside. */
  lemma OwnedNodeIsLeftAlone(s: State, a: Action, n: Node)
    requires Inv(s) && n != DUMMY && Outside(s.c, n) && !Claims(a, n)
    ensures n !in Touches(s, a)
    ensures Outside(Step(s, a).c, n)
    ensures n in Step(s, a).c.link <==> n in s.c.link
    ensures Load(Step(s, a).c, n) == Load(s.c, n)
  {
    OutsideIsUnreferenced(s.c, n);
    StaysOutside(s, a, n);
  }

  /** The same over a whole run: a node that dequeue has handed back is never written again
      by the queue until its owner enqueues it again. */
  lemma {:induction false} OwnedNodeIsLeftAloneForever(s: State, run: seq<Action>, n: Node)
    requires Inv(s) && n != DUMMY && Outside(s.c, n)
    requires forall i :: 0 <= i < |run| ==> !Claims(run[i], n)
    ensures Outside(Exec(s, run).c, n)
    ensures Load(Exec(s, run).c, n) == Load(s.c, n)
    decreases |run|
  {
    if run != [] {
      OwnedNodeIsLeftAlone(s, run[0], n);
      StepPreserves(s, run[0]);
      OwnedNodeIsLeftAloneForever(Step(s, run[0]), run[1..], n);
    }
  }

  // ---------- progress ----------

  /** A bound on the accesses a call of dequeue still makes. */
  function Rank(s: State): nat {
    match s.pc
    case Idle(_) => 0
    case AtAdvance(_, _) => 1
    case AtRetry(_) => 2
    case AtEnqueue(_) => if Consumer !in s.c.writers then 5 else if s.c.writers[Consumer].Cleared? then 4 else 3
    case AtHead(_) => 6
    case AtReload(_) => 7
    case AtSkip(_) => 8
    case AtNext(_) => 9
  }

  /** Dequeue is wait-free: each of its accesses brings the call closer to its end, and nothing a
      producer or an owner does moves the end away.  A call makes at most ten accesses. */
  lemma WaitFree(s: State, a: Action)
    ensures a.Consume? && !s.pc.Idle? ==> Rank(Step(s, a)) < Rank(s)
    ensures !a.Consume? ==> Rank(Step(s, a)) == Rank(s) && Step(s, a).pc == s.pc
    ensures Rank(s) <= 9
  {
  }

  /** The rest of a call of dequeue when nobody interferes. */
  function Finish(s: State): (s': State)
    ensures s'.pc.Idle?
    decreases Rank(s)
  {
    if s.pc.Idle? then s else Finish(ConsumerStep(s))
  }

  function Dequeue(s: State): State
    requires s.pc.Idle?
  {
    Finish(ConsumerStep(s))
  }

  /** No enqueue lies between its exchange of the head and its store of the link. */
  ghost predicate Quiescent(s: State) {
    s.pc.Idle? && forall w :: w in s.c.writers ==> s.c.writers[w].Cleared?
  }

  lemma {:induction false} FinishPreserves(s: State)
    requires Inv(s)
    ensures Inv(Finish(s))
    decreases Rank(s)
  {
    if !s.pc.Idle? {
      ConsumerPreserves(s);
      FinishPreserves(ConsumerStep(s));
    }
  }

  ghost predicate NobodyBetween(s: State) {
    forall w :: w in s.c.writers && w != Consumer ==> s.c.writers[w].Cleared?
  }

  /** The consumer has a real node in front of it, and nobody can keep it from delivering that node. */
  ghost predicate Committed(s: State) {
    && Inv(s) && NobodyBetween(s)
    && s.c.tail != DUMMY && !s.pc.Idle? && !s.pc.AtSkip?
    && (s.pc.AtHead? || s.pc.AtEnqueue? ==> s.c.tail == s.c.head || Consumer in s.c.writers)
    && (s.pc.AtRetry? ==> s.c.tail != s.c.head)
  }

  lemma ConsumerSwapped(s: State)
    requires Inv(s) && NobodyBetween(s) && Broken(s.c, s.c.popped + 1)
    ensures CanJoin(s.c, Consumer) && s.pc.AtEnqueue?
  {
    var w :| w in s.c.writers && s.c.writers[w].Swapped? && s.c.writers[w].at == s.c.popped + 1;
    assert w == Consumer;
  }

  lemma CommittedInEnqueue(s: State)
    requires Committed(s) && s.pc.AtEnqueue?
    ensures var s1 := ConsumerStep(s);
            Committed(s1) && s1.c.tail == s.c.tail && Pending(s1) == Pending(s)
  {
    ConsumerPreserves(s);
    EnqueueDummyRefinesFifo(s);
    if CanJoin(s.c, Consumer) {
      assert WriterOk(s.c, Consumer);
      TailLink(s.c);
    }
  }

  lemma CommittedStep(s: State)
    requires Committed(s) && !s.pc.AtAdvance?
    ensures var s1 := ConsumerStep(s);
            Committed(s1) && s1.c.tail == s.c.tail && Pending(s1) == Pending(s)
  {
    if s.pc.AtEnqueue? {
      CommittedInEnqueue(s);
    } else {
      ConsumerPreserves(s);
      TailLink(s.c);
      if Broken(s.c, s.c.popped + 1) {
        ConsumerSwapped(s);
      }
    }
  }

  lemma CommittedLast(s: State)
    requires Committed(s) && s.pc.AtAdvance?
    ensures var s1 := ConsumerStep(s);
            && Inv(s1) && Quiescent(s1)
            && s1.pc == Idle(Some(s.c.tail))
            && Pending(s) == [s.c.tail] + Pending(s1)
  {
    ConsumerPreserves(s);
    AdvanceRefinesFifo(s);
  }

  lemma {:induction false} FinishDelivers(s: State)
    requires Committed(s)
    ensures var s' := Finish(s);
            && Inv(s') && Quiescent(s')
            && s'.pc == Idle(Some(s.c.tail))
            && Pending(s) == [s.c.tail] + Pending(s')
    decreases Rank(s)
  {
    var s1 := ConsumerStep(s);
    if s.pc.AtAdvance? {
      CommittedLast(s);
      assert Finish(s) == Finish(s1) == s1;
    } else {
      CommittedStep(s);
      FinishDelivers(s1);
    }
  }

  ghost predicate Quiet(c: Chain) {
    forall w :: w in c.writers ==> c.writers[w].Cleared?
  }

  lemma NoBrokenEdge(c: Chain)
    requires Quiet(c)
    ensures forall at :: !Broken(c, at)
  {
  }

  /** Past the dummy, a quiescent call delivers the node behind it. */
  lemma QuiescentSkip(s: State)
    requires Inv(s) && s.pc.AtSkip? && Quiet(s.c)
    ensures |Pending(s)| > 0
    ensures var s' := Finish(s);
            && Inv(s') && Quiescent(s')
            && s'.pc == Idle(Some(Pending(s)[0])) && Pending(s') == Pending(s)[1..]
  {
    hide WellFormed, DummyOk, Pending;
    var s1 := ConsumerStep(s);
    ConsumerPreserves(s);
    AdvanceRefinesFifo(s);
    FinishDelivers(s1);
  }

  /** Quiescent completeness: with no enqueue between exchange and link store, an undisturbed dequeue
      returns the oldest pending node, and it returns nothing exactly when nothing is pending. */
  lemma QuiescentDequeue(s: State)
    requires Inv(s) && Quiescent(s)
    ensures var s' := Dequeue(s);
            && Inv(s') && Quiescent(s')
            && (s'.pc == Idle(None) <==> Pending(s) == [])
            && (s'.pc == Idle(None) ==> Pending(s') == [])
            && (s'.pc != Idle(None) ==> s'.pc == Idle(Some(Pending(s)[0])) && Pending(s') == Pending(s)[1..])
  {
    var s1 := ConsumerStep(s);
    ConsumerPreserves(s);
    assert Pending(s1) == Pending(s);
    if s.c.tail != DUMMY {
      FinishDelivers(s1);
    } else {
      var s2 := ConsumerStep(s1);
      ConsumerPreserves(s1);
      NoBrokenEdge(s.c);
      TailLink(s.c);
      if s2.pc.AtSkip? {
        QuiescentSkip(s2);
      } else {
        assert s.c.log[s.c.popped..] == [DUMMY];
        WithoutDummyOne(DUMMY);
        assert Finish(s1) == Finish(s2) == s2;
      }
    }
  }

  /** The drain loop of the destructor: the nodes obtained by dequeueing until nothing comes back. */
  ghost function Drain(s: State): seq<Node>
    requires Inv(s) && Quiescent(s)
    decreases |Pending(s)|
  {
    QuiescentDequeue(s);
    var s' := Dequeue(s);
    if s'.pc.last == None then [] else [s'.pc.last.value] + Drain(s')
  }

  /** The drain loop terminates and yields every pending node exactly once, in order; no node that the
      loop deletes is still referred to by the queue. */
  lemma {:induction false} DrainReleasesAll(s: State)
    requires Inv(s) && Quiescent(s)
    ensures Drain(s) == Pending(s)
    decreases |Pending(s)|
  {
    QuiescentDequeue(s);
    var s' := Dequeue(s);
    if s'.pc.last.Some? {
      DrainReleasesAll(s');
    }
  }
}
