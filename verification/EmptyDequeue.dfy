/** When a call of dequeue of the intrusive queue returns nothing, under any interleaving. */
module EmptyDequeue {
  import opened Wrappers
  import opened LinkChain
  import opened IntrusiveQueue

  /** Nothing is pending, or some producer lies between its exchange and its store. */
  ghost predicate Excuse(s: State) {
    (s.c.popped <= |s.c.log| && Pending(s) == []) || !NobodyBetween(s)
  }

  /** Some state that the run visits has an excuse. */
  ghost predicate Excused(s: State, run: seq<Action>)
    decreases |run|
  {
    Excuse(s) || (run != [] && Excused(Step(s, run[0]), run[1..]))
  }

  /** The consumer is inside one and the same call before every step of the run. */
  ghost predicate DuringCall(s: State, run: seq<Action>)
    decreases |run|
  {
    run == [] || (!s.pc.Idle? && DuringCall(Step(s, run[0]), run[1..]))
  }

  /** As long as there has been no excuse in this call: before the head is loaded the tail is the last node,
      and after the dummy has been enqueued it is not. */
  ghost predicate Onward(s: State) {
    && Inv(s)
    && (s.pc.AtHead? ==> s.c.popped + 1 == |s.c.log|)
    && (s.pc.AtRetry? ==> s.c.popped + 1 < |s.c.log|)
  }

  lemma OthersStayOnward(s: State, a: Action)
    requires Onward(s) && !a.Consume? && !Excuse(Step(s, a))
    ensures Onward(Step(s, a)) && Step(s, a).pc == s.pc
  {
    hide WellFormed, DummyOk, PcOk, Pending;
    StepPreserves(s, a);
    ExchangeExcuses(s, a);
  }

  lemma ExchangeExcuses(s: State, a: Action)
    ensures a.Exchange? && Enabled(s, a) ==> !NobodyBetween(Step(s, a))
  {
    if a.Exchange? && Enabled(s, a) {
      assert Step(s, a).c.writers[Producer(a.p)].Swapped?;
    }
  }

  lemma LastNodeOnly(s: State)
    requires Inv(s) && s.c.tail == DUMMY && s.c.popped + 1 == |s.c.log|
    ensures Pending(s) == []
  {
    assert s.c.log[s.c.popped..] == [DUMMY];
    WithoutDummyOne(DUMMY);
  }

  lemma ConsumerStaysOnward(s: State)
    requires Onward(s) && !Excuse(s) && !s.pc.Idle?
    ensures ConsumerStep(s).pc != Idle(None)
    ensures Onward(ConsumerStep(s))
  {
    hide Edges, Distinct, Live, Pending;
    ConsumerPreserves(s);
    TailLink(s.c);
    if Broken(s.c, s.c.popped + 1) {
      ConsumerSwapped(s);
    }
    if s.pc.AtNext? && s.pc.tail == DUMMY && s.c.popped + 1 == |s.c.log| {
      LastNodeOnly(s);
    }
    if s.pc.AtEnqueue? && CanJoin(s.c, Consumer) {
      assert WriterOk(s.c, Consumer);
    }
  }

  lemma {:induction false} OnwardEnds(s: State, run: seq<Action>)
    requires Onward(s) && DuringCall(s, run) && Exec(s, run).pc == Idle(None)
    requires run == [] ==> s.pc != Idle(None)
    requires s.pc == Idle(None) ==> Excuse(s)
    ensures Excused(s, run)
    decreases |run|
  {
    hide Inv, Onward, Excuse;
    if run != [] && !Excuse(s) && !Excuse(Step(s, run[0])) {
      if run[0].Consume? {
        ConsumerStaysOnward(s);
      } else {
        OthersStayOnward(s, run[0]);
      }
      OnwardEnds(Step(s, run[0]), run[1..]);
    }
  }

  /** Under every interleaving: if a call of dequeue returns nothing, then at some moment of the call nothing was
      pending, or some producer lay between its exchange and its store. */
  lemma NothingHasReason(s: State, run: seq<Action>)
    requires Inv(s) && s.pc.Idle?
    requires DuringCall(ConsumerStep(s), run) && Exec(ConsumerStep(s), run).pc == Idle(None)
    ensures Excused(ConsumerStep(s), run)
  {
    ConsumerPreserves(s);
    OnwardEnds(ConsumerStep(s), run);
  }

  // ---------- exactly when a call returns nothing ----------

  /** The dummy that was enqueued in this call is behind the tail. */
  ghost predicate CallInv(s: State) {
    Inv(s) && (s.pc.AtRetry? ==> s.c.popped + 1 < |s.c.log|)
  }

  lemma CallStep(s: State, a: Action)
    requires CallInv(s)
    ensures CallInv(Step(s, a))
  {
    hide Edges, Distinct, Live, DummyOk;
    StepPreserves(s, a);
    if a.Consume? && s.pc.AtEnqueue? && CanJoin(s.c, Consumer) {
      assert WriterOk(s.c, Consumer);
    }
  }

  /** What a load finds when it ends the call: behind the dummy nothing is pending, or the oldest pending node is
      not linked yet; a node has been exchanged in behind the tail since its link was loaded; or the node that got
      between the tail and the dummy is not linked yet. */
  ghost predicate FindsNothing(s: State)
    requires s.c.popped <= |s.c.log|
  {
    match s.pc
    case AtNext(t) => t == DUMMY && (Pending(s) == [] || Broken(s.c, s.c.popped + 1))
    case AtHead(_) => s.c.popped + 1 < |s.c.log|
    case AtRetry(_) => Broken(s.c, s.c.popped + 1)
    case _ => false
  }

  lemma DummyOnlyIff(s: State)
    requires Inv(s) && s.c.tail == DUMMY
    ensures Pending(s) == [] <==> s.c.popped + 1 == |s.c.log|
  {
    if s.c.popped + 1 == |s.c.log| {
      LastNodeOnly(s);
    } else {
      var ns := s.c.log[s.c.popped..];
      assert ns == ns[..1] + [ns[1]] + ns[2..];
      WithoutDummyConcat(ns[..1] + [ns[1]], ns[2..]);
      WithoutDummyConcat(ns[..1], [ns[1]]);
      assert ns[0] == s.c.tail && ns[1] == s.c.log[s.c.popped + 1] != DUMMY;
      WithoutDummyOne(ns[1]);
    }
  }

  /** One access: the call returns nothing if and only if the access finds nothing. */
  lemma NothingIff(s: State)
    requires CallInv(s) && !s.pc.Idle?
    ensures s.c.popped <= |s.c.log|
    ensures ConsumerStep(s).pc == Idle(None) <==> FindsNothing(s)
  {
    hide Edges, Distinct, Live, WritersOk, DummyOk, Pending;
    TailLink(s.c);
    if s.pc.AtNext? && s.c.tail == DUMMY {
      DummyOnlyIff(s);
    }
  }

  /** Some access of the run finds nothing. */
  ghost predicate MeetsNothing(s: State, run: seq<Action>)
    decreases |run|
  {
    run != [] &&
    ((run[0].Consume? && s.c.popped <= |s.c.log| && FindsNothing(s)) || MeetsNothing(Step(s, run[0]), run[1..]))
  }

  lemma {:induction false} EndsWithNothingIff(s: State, run: seq<Action>)
    requires CallInv(s) && !s.pc.Idle? && DuringCall(s, run) && Exec(s, run).pc.Idle?
    ensures Exec(s, run).pc == Idle(None) <==> MeetsNothing(s, run)
    decreases |run|
  {
    hide CallInv, FindsNothing;
    var s1 := Step(s, run[0]);
    CallStep(s, run[0]);
    NothingIff(s);
    if s1.pc.Idle? {
      assert run[1..] == [];
    } else {
      EndsWithNothingIff(s1, run[1..]);
    }
  }

  /** A whole call under every interleaving: it returns nothing if and only if one of its accesses finds nothing. */
  lemma CallReturnsNothingIff(s: State, run: seq<Action>)
    requires Inv(s) && s.pc.Idle?
    requires DuringCall(ConsumerStep(s), run) && Exec(ConsumerStep(s), run).pc.Idle?
    ensures Exec(ConsumerStep(s), run).pc == Idle(None) <==> MeetsNothing(ConsumerStep(s), run)
  {
    ConsumerPreserves(s);
    EndsWithNothingIff(ConsumerStep(s), run);
  }

  /** A chain of the dummy, skipped, and one node; the consumer has seen that this node has no link yet. */
  const ONE_NODE := State(
    Chain(1, 1, map[DUMMY := Some(1), 1 := None, 2 := None], map[], [DUMMY, 1], 1), AtHead(1), [])

  /** The same chain when the link of the node is about to be loaded. */
  const BEFORE_LOAD := ONE_NODE.(pc := AtReload(1))

  lemma {:induction false} ExecConcat(s: State, a: seq<Action>, b: seq<Action>)
    ensures Exec(s, a + b) == Exec(Exec(s, a), b)
    decreases |a|
  {
    if a == [] {
      assert a + b == b;
    } else {
      assert (a + b)[1..] == a[1..] + b;
      ExecConcat(Step(s, a[0]), a[1..], b);
    }
  }

  /** A whole enqueue that nobody interrupts. */
  lemma WholeEnqueue(s: State, n: Node)
    requires Producer(0) !in s.c.writers && n in s.c.link && n != DUMMY && Outside(s.c, n) && s.c.head != n
    ensures Exec(s, [Begin(0, n), Exchange(0), Publish(0)])
         == s.(c := s.c.(head := n, log := s.c.log + [n], link := s.c.link[n := None][s.c.head := Some(n)]))
  {
    hide Outside;
    var run := [Begin(0, n), Exchange(0), Publish(0)];
    assert run[1..] == [Exchange(0), Publish(0)] && run[1..][1..] == [Publish(0)] && run[1..][1..][1..] == [];
    var w := Producer(0);
    var s1 := Step(s, Begin(0, n));
    var s2 := Step(s1, Exchange(0));
    var s3 := Step(s2, Publish(0));
    assert s1.c == Clear(s.c, w, n) && s2.c == Swap(s1.c, w) && s3.c == Join(s2.c, w);
    assert s3.c.writers == s.c.writers;
    assert Exec(s, run) == Exec(s1, run[1..]) == Exec(s2, run[1..][1..]) == Exec(s3, []) == s3;
  }

  /** Two nodes created and the first of them enqueued. */
  const ENQUEUED := State(
    Chain(1, DUMMY, map[DUMMY := Some(1), 1 := None, 2 := None], map[], [DUMMY, 1], 0), Idle(None), [])

  lemma ReachEnqueued()
    ensures Exec(Init(), [Create(1, None), Create(2, None)] + [Begin(0, 1), Exchange(0), Publish(0)]) == ENQUEUED
  {
    var create := [Create(1, None), Create(2, None)];
    assert create[1..] == [Create(2, None)] && create[1..][1..] == [];
    var s := Exec(Init(), create);
    assert s == Exec(Step(Init(), create[0]), create[1..]) == Exec(Step(Step(Init(), create[0]), create[1]), []);
    assert s.c == Single(DUMMY).(link := map[DUMMY := None, 1 := None, 2 := None]);
    WholeEnqueue(s, 1);
    assert [DUMMY] + [1] == [DUMMY, 1];
    assert s.c.link[1 := None][DUMMY := Some(1)] == ENQUEUED.c.link;
    ExecConcat(Init(), create, [Begin(0, 1), Exchange(0), Publish(0)]);
  }

  lemma ConsumeThrice()
    ensures Exec(ENQUEUED, [Consume, Consume, Consume]) == BEFORE_LOAD
  {
    var consume := [Consume, Consume, Consume];
    assert consume[1..] == [Consume, Consume] && consume[1..][1..] == [Consume] && consume[1..][1..][1..] == [];
    var t1, t2 := Step(ENQUEUED, Consume), Step(Step(ENQUEUED, Consume), Consume);
    assert t1.pc == AtNext(DUMMY) && t2.pc == AtSkip(1);
    assert Exec(ENQUEUED, consume) == Exec(t1, consume[1..]) == Exec(t2, [Consume]) == Exec(Step(t2, Consume), []);
  }

  lemma ReachBeforeLoad()
    ensures exists run :: Exec(Init(), run) == BEFORE_LOAD
  {
    hide Exec;
    ReachEnqueued();
    ConsumeThrice();
    var enqueued := [Create(1, None), Create(2, None)] + [Begin(0, 1), Exchange(0), Publish(0)];
    ExecConcat(Init(), enqueued, [Consume, Consume, Consume]);
    assert Exec(Init(), enqueued + [Consume, Consume, Consume]) == BEFORE_LOAD;
  }

  /** And after a whole enqueue of node 2. */
  const LATE := ONE_NODE.(c := ONE_NODE.c.(
    head := 2, log := [DUMMY, 1, 2], link := map[DUMMY := Some(1), 1 := Some(2), 2 := None]))

  lemma LateIs()
    ensures ConsumerStep(BEFORE_LOAD) == ONE_NODE
    ensures Exec(ONE_NODE, [Begin(0, 2), Exchange(0), Publish(0)]) == LATE
  {
    hide Exec;
    WholeEnqueue(ONE_NODE, 2);
    assert [DUMMY, 1] + [2] == [DUMMY, 1, 2];
    assert ONE_NODE.c.link[2 := None][1 := Some(2)] == LATE.c.link;
  }

  /** The moment need not be a load of the call.  Here node 1 is pending all the time, and when its link is
      loaded, and again when the head is loaded, no producer lies between its exchange and its store; but a whole
      enqueue between these two loads makes the call return nothing. */
  lemma ReasonBetweenLoads()
    ensures exists run :: Exec(Init(), run) == BEFORE_LOAD
    ensures var late := Exec(ConsumerStep(BEFORE_LOAD), [Begin(0, 2), Exchange(0), Publish(0)]);
            && !Excuse(BEFORE_LOAD) && !Excuse(ConsumerStep(BEFORE_LOAD)) && !Excuse(late)
            && ConsumerStep(BEFORE_LOAD).pc == AtHead(1) && late.pc == AtHead(1)
            && Pending(late) == [1, 2]
            && ConsumerStep(late).pc == Idle(None)
  {
    hide Exec, WithoutDummy, Pending;
    ReachBeforeLoad();
    LateIs();
    PendingOf(BEFORE_LOAD, [1]);
    PendingOf(ONE_NODE, [1]);
    PendingOf(LATE, [1, 2]);
  }

  lemma PendingOf(s: State, ns: seq<Node>)
    requires s.c.popped <= |s.c.log| && s.c.log[s.c.popped..] == ns && DUMMY !in ns
    ensures Pending(s) == ns
  {
    NoDummyNothingRemoved(ns);
  }

  lemma {:induction false} NoDummyNothingRemoved(ns: seq<Node>)
    requires DUMMY !in ns
    ensures WithoutDummy(ns) == ns
  {
    if ns != [] {
      NoDummyNothingRemoved(ns[..|ns| - 1]);
    }
  }
}
