/** The intrusive queue as its class is written: `m_head`, `m_tail` and the links are updated in
    place, and other threads may run between any two atomic accesses of a method. */
module IntrusiveQueueClass {
  import opened Wrappers
  import opened LinkChain
  import opened IntrusiveQueue

  /** The thread a step belongs to; owners creating and destroying nodes belong to no enqueue. */
  predicate By(a: Action, w: Writer) {
    match a
    case Consume => w == Consumer
    case Begin(p, _) => w == Producer(p)
    case Exchange(p) => w == Producer(p)
    case Publish(p) => w == Producer(p)
    case _ => false
  }

  predicate OthersOnly(run: seq<Action>, w: Writer) {
    forall i :: 0 <= i < |run| ==> !By(run[i], w)
  }

  /** What a run of the other threads leaves alone from the point of view of w. */
  ghost predicate Rely(s: State, s': State, w: Writer) {
    && s.c.log <= s'.c.log
    && (w in s.c.writers <==> w in s'.c.writers)
    && (w in s.c.writers ==> s'.c.writers[w] == s.c.writers[w])
    && (w == Consumer ==>
          s'.pc == s.pc && s'.c.tail == s.c.tail && s'.c.popped == s.c.popped && s'.delivered == s.delivered)
  }

  lemma {:induction false} OthersSatisfyRely(s: State, run: seq<Action>, w: Writer)
    requires Inv(s) && OthersOnly(run, w)
    ensures Inv(Exec(s, run)) && Rely(s, Exec(s, run), w)
    decreases |run|
  {
    if run != [] {
      StepPreserves(s, run[0]);
      OneOtherSatisfiesRely(s, run[0], w);
      OthersSatisfyRely(Step(s, run[0]), run[1..], w);
    }
  }

  lemma OneOtherSatisfiesRely(s: State, a: Action, w: Writer)
    requires Inv(s) && !By(a, w)
    ensures Rely(s, Step(s, a), w)
  {
  }

  /** The common part of the contracts below: the log grows, the consumer's accesses before the last
      deliver nothing, and when nobody interferes the outcome of the call is still the same. */
  ghost predicate Keeps(s: State, s': State, w: Writer, alone: bool) {
    && s.c.log <= s'.c.log
    && (w == Consumer ==> s'.c.tail == s.c.tail || s.pc.AtSkip?)
    && (w == Consumer ==> s'.delivered == s.delivered)
    && (w == Consumer && alone ==> Finish(s') == Finish(s))
  }

  lemma Tick(s: State)
    requires Inv(s)
    ensures Inv(ConsumerStep(s))
    ensures !s.pc.Idle? ==> Finish(s) == Finish(ConsumerStep(s))
  {
    ConsumerPreserves(s);
  }

  class MpscQueueIntrusive {
    var head: Node
    var tail: Node
    var link: map<Node, Option<Node>>
    ghost var writers: map<Writer, Phase>
    ghost var log: seq<Node>
    ghost var popped: nat
    ghost var pc: Pc
    ghost var delivered: seq<Node>

    ghost function Now(): State
      reads this
    {
      State(Chain(head, tail, link, writers, log, popped), pc, delivered)
    }

    constructor ()
      ensures Now() == Init() && Inv(Now())
    {
      head := DUMMY;
      tail := DUMMY;
      link := map[DUMMY := None];
      writers, log, popped := map[], [DUMMY], 0;
      pc, delivered := Idle(None), [];
      new;
      InitInv();
    }

    /** The other threads execute any number of steps; when `alone` holds there are none that do.
        The body is the run without a step: callers know only the contract. */
    method Interfere(ghost w: Writer, ghost alone: bool)
      requires Inv(Now())
      modifies this
      ensures exists run :: OthersOnly(run, w) && Now() == Exec(old(Now()), run)
      ensures alone ==> Now() == old(Now())
    {
      assert OthersOnly([], w) && Now() == Exec(old(Now()), []);
    }

    /** Interfere, with what the invariant makes of it. */
    method Yield(ghost w: Writer, ghost alone: bool)
      requires Inv(Now())
      modifies this
      ensures Inv(Now()) && Rely(old(Now()), Now(), w)
      ensures alone ==> Now() == old(Now())
    {
      ghost var s := Now();
      Interfere(w, alone);
      ghost var run :| OthersOnly(run, w) && Now() == Exec(s, run);
      OthersSatisfyRely(s, run, w);
    }

    // ---------- the three accesses of enqueue, by a producer or by the consumer ----------

    method ClearLink(ghost w: Writer, input: Node, ghost alone: bool)
      requires Inv(Now())
      requires w.Producer? ==> Enabled(Now(), Begin(w.id, input))
      requires w.Consumer? ==> pc.AtEnqueue? && Consumer !in writers && input == DUMMY
      modifies this
      ensures Inv(Now()) && Keeps(old(Now()), Now(), w, alone)
      ensures w in writers && writers[w] == Cleared(input)
      ensures w.Consumer? ==> pc == old(pc)
    {
      ghost var s := Now();
      link := link[input := None];
      writers := writers[w := Cleared(input)];
      if w.Producer? { ProducerPreserves(s, Begin(w.id, input)); } else { Tick(s); }
      Yield(w, alone);
    }

    method SwapHead(ghost w: Writer, input: Node, ghost alone: bool) returns (previousHead: Node)
      requires Inv(Now()) && w in writers && writers[w] == Cleared(input)
      modifies this
      ensures Inv(Now()) && Keeps(old(Now()), Now(), w, alone)
      ensures w in writers && writers[w].Swapped? && writers[w].prev == previousHead && writers[w].node == input
      ensures w.Consumer? ==> pc == old(pc)
      ensures exists i :: |old(log)| <= i < |log| && log[i] == input
    {
      hide WellFormed;
      ghost var s := Now();
      previousHead := head;
      head := input;
      writers := writers[w := Swapped(input, previousHead, |log|)];
      log := log + [input];
      if w.Producer? { ProducerPreserves(s, Exchange(w.id)); } else { Tick(s); }
      ghost var i := |log| - 1;
      assert log[i] == input;
      Yield(w, alone);
      assert log[i] == input;
    }

    method StoreLink(ghost w: Writer, previousHead: Node, input: Node, ghost alone: bool)
      requires Inv(Now()) && w in writers
      requires writers[w].Swapped? && writers[w].prev == previousHead && writers[w].node == input
      modifies this
      ensures Inv(Now()) && Keeps(old(Now()), Now(), w, alone)
      ensures w !in writers
      ensures w.Consumer? ==> pc == AtRetry(tail)
    {
      ghost var s := Now();
      link := link[previousHead := Some(input)];
      writers := writers - {w};
      if w.Producer? {
        ProducerPreserves(s, Publish(w.id));
      } else {
        pc := AtRetry(tail);
        Tick(s);
      }
      Yield(w, alone);
    }

    /** Enqueue, by a producer or by the consumer for its dummy.  On return the node has its place in
        the order of the exchanges. */
    method Enqueue(ghost w: Writer, input: Node, ghost alone: bool)
      requires Inv(Now())
      requires w.Producer? ==> Enabled(Now(), Begin(w.id, input))
      requires w.Consumer? ==> pc.AtEnqueue? && Consumer !in writers && input == DUMMY
      modifies this
      ensures Inv(Now()) && Keeps(old(Now()), Now(), w, alone)
      ensures w !in writers && exists i :: |old(log)| <= i < |log| && log[i] == input
      ensures w.Consumer? ==> pc == AtRetry(tail)
    {
      hide WellFormed, PcOk;
      ClearLink(w, input, alone);
      var previousHead := SwapHead(w, input, alone);
      ghost var i :| |old(log)| <= i < |log| && log[i] == input;
      StoreLink(w, previousHead, input, alone);
      assert log[i] == input;
    }

    // ---------- the accesses of dequeue ----------

    method LoadTail(ghost alone: bool) returns (front: Node)
      requires Inv(Now()) && pc.Idle?
      modifies this
      ensures Inv(Now()) && pc == AtNext(front)
      ensures old(log) <= log && delivered == old(delivered)
      ensures alone ==> Finish(Now()) == IntrusiveQueue.Dequeue(old(Now()))
    {
      ghost var s := Now();
      front := tail;
      pc := AtNext(front);
      Tick(s);
      Yield(Consumer, alone);
    }

    /** Loads the link of the tail, wherever dequeue does so. */
    method LoadLink(front: Node, ghost alone: bool) returns (next: Option<Node>)
      requires Inv(Now()) && (pc == AtNext(front) || pc == AtReload(front) || pc == AtRetry(front))
      modifies this
      ensures Inv(Now()) && Keeps(old(Now()), Now(), Consumer, alone)
      ensures pc == if next.Some? then (if front == DUMMY then AtSkip(next.value) else AtAdvance(front, next.value))
                    else if front == DUMMY || old(pc).AtRetry? then Idle(None)
                    else AtHead(front)
    {
      ghost var s := Now();
      TailLink(s.c);
      next := link[front];
      pc := ConsumerStep(s).pc;
      Tick(s);
      Yield(Consumer, alone);
    }

    method SkipDummy(next: Node, ghost alone: bool)
      requires Inv(Now()) && pc == AtSkip(next)
      modifies this
      ensures Inv(Now()) && Keeps(old(Now()), Now(), Consumer, alone)
      ensures pc == AtReload(next) && next != DUMMY
    {
      ghost var s := Now();
      tail := next;
      popped := popped + 1;
      pc := AtReload(next);
      Tick(s);
      Yield(Consumer, alone);
    }

    method LoadHead(front: Node, ghost alone: bool) returns (last: bool)
      requires Inv(Now()) && pc == AtHead(front)
      modifies this
      ensures Inv(Now()) && Keeps(old(Now()), Now(), Consumer, alone)
      ensures if last then pc == AtEnqueue(front) && Consumer !in writers else pc == Idle(None)
    {
      ghost var s := Now();
      last := front == head;
      pc := if last then AtEnqueue(front) else Idle(None);
      Tick(s);
      Yield(Consumer, alone);
    }

    /** Moves the tail and hands the former tail back. */
    method TakeFront(front: Node, next: Node)
      requires Inv(Now()) && pc == AtAdvance(front, next)
      modifies this
      ensures Inv(Now()) && pc == Idle(Some(front)) && front != DUMMY
      ensures log == old(log) && delivered == old(delivered) + [front]
      ensures Unreferenced(Now().c, front)
      ensures Now() == Finish(old(Now()))
    {
      ghost var s := Now();
      AdvancePreserves(s.c, next);
      pc := Idle(Some(tail));
      delivered := delivered + [tail];
      tail := next;
      popped := popped + 1;
      Tick(s);
      assert Now() == Finish(Now());
    }

    /** The part of dequeue that follows a null link: the node may be the last one. */
    method DequeueLast(front: Node, ghost alone: bool) returns (result: Option<Node>)
      requires Inv(Now()) && pc == AtHead(front)
      modifies this
      ensures Inv(Now()) && pc == Idle(result) && old(log) <= log
      ensures delivered == old(delivered) + (if result.Some? then [result.value] else [])
      ensures result.Some? ==> result.value != DUMMY && Unreferenced(Now().c, result.value)
      ensures alone ==> Now() == Finish(old(Now()))
    {
      hide WellFormed;
      var last := LoadHead(front, alone);
      if !last {
        return None;
      }
      Enqueue(Consumer, DUMMY, alone);
      var next := LoadLink(front, alone);
      if next.None? {
        return None;
      }
      TakeFront(front, next.value);
      result := Some(front);
    }

    /** Dequeue with the other threads running in between.  It returns the next node of the exchange
        order, or nothing; a returned node is not referred to by the queue any more.  Undisturbed, it
        is the transition system's dequeue. */
    method Dequeue(ghost alone: bool) returns (result: Option<Node>)
      requires Inv(Now()) && pc.Idle?
      modifies this
      ensures Inv(Now()) && pc == Idle(result) && old(log) <= log
      ensures delivered == old(delivered) + (if result.Some? then [result.value] else [])
      ensures result.Some? ==> result.value != DUMMY && Unreferenced(Now().c, result.value)
      ensures alone ==> Now() == IntrusiveQueue.Dequeue(old(Now()))
    {
      hide WellFormed, Pending;
      var front := LoadTail(alone);
      var next := LoadLink(front, alone);
      if front == DUMMY {
        if next.None? {
          return None;
        }
        SkipDummy(next.value, alone);
        front := next.value;
        next := LoadLink(front, alone);
      }
      if next.Some? {
        TakeFront(front, next.value);
        return Some(front);
      }
      result := DequeueLast(front, alone);
    }

    /** What has been delivered is always a prefix of the exchange order without the dummy. */
    lemma DeliveredInOrder()
      requires Inv(Now())
      ensures WithoutDummy(log) == delivered + Pending(Now())
    {
      assert log == log[..popped] + log[popped..];
      WithoutDummyConcat(log[..popped], log[popped..]);
    }

    /** The destructor's loop, with all producers gone: it terminates, deletes every pending node
        exactly once in queue order, and leaves nothing but the dummy behind. */
    method DrainAndDelete() returns (deleted: seq<Node>)
      requires Inv(Now()) && pc.Idle? && writers == map[]
      modifies this
      ensures deleted == old(Pending(Now()))
      ensures Inv(Now()) && Pending(Now()) == []
      ensures forall i :: 0 <= i < |deleted| ==> deleted[i] !in link
    {
      deleted := [];
      ghost var all := Pending(Now());
      hide Inv, Pending;
      while true
        invariant Inv(Now()) && pc.Idle? && writers == map[] && popped <= |log|
        invariant all == deleted + Pending(Now())
        invariant forall i :: 0 <= i < |deleted| ==> deleted[i] !in link
        decreases |Pending(Now())|
      {
        DrainStep(Now());
        var output := Dequeue(true);
        if output.None? {
          break;
        }
        link := link - {output.value};
        deleted := deleted + [output.value];
      }
    }
  }

  /** One round of the drain loop. */
  lemma DrainStep(s: State)
    requires Inv(s) && s.pc.Idle? && s.c.writers == map[]
    ensures var s' := IntrusiveQueue.Dequeue(s);
            && Inv(s') && s'.pc.Idle? && s'.c.writers == map[]
            && s'.c.link.Keys == s.c.link.Keys && s'.c.popped <= |s'.c.log| && s.c.popped <= |s.c.log|
            && match s'.pc.last {
                 case None => Pending(s) == [] && Pending(s') == []
                 case Some(n) =>
                   var s'' := s'.(c := s'.c.(link := s'.c.link - {n}));
                   Pending(s) == [n] + Pending(s') && Pending(s'') == Pending(s') && Inv(s'')
               }
  {
    var s' := IntrusiveQueue.Dequeue(s);
    QuiescentDequeue(s);
    ConsumerPreserves(s);
    FinishKeepsLinks(ConsumerStep(s));
    if s'.pc.last.Some? {
      PendingIsLive(s);
      FinishHandsBack(ConsumerStep(s));
      OwnerPreserves(s', Destroy(s'.pc.last.value));
    }
  }

  lemma {:induction false} FinishHandsBack(s: State)
    requires Inv(s) && !s.pc.Idle?
    ensures Inv(Finish(s))
    ensures Finish(s).pc.last.Some? ==> Finish(s).pc.last.value != DUMMY && Outside(Finish(s).c, Finish(s).pc.last.value)
    decreases Rank(s)
  {
    hide Edges, Distinct, Live, WritersOk;
    var s1 := ConsumerStep(s);
    Tick(s);
    if s1.pc.Idle? {
      if s.pc.AtAdvance? {
        AdvancePreserves(s.c, s.pc.next);
      }
      assert Finish(s) == Finish(s1) == s1;
    } else {
      FinishHandsBack(s1);
    }
  }

  lemma StepKeepsLinks(s: State)
    requires Inv(s) && NobodyBetween(s)
    requires forall w :: w in s.c.writers ==> w == Consumer
    ensures var s' := ConsumerStep(s);
            && Inv(s') && NobodyBetween(s')
            && (forall w :: w in s'.c.writers ==> w == Consumer)
            && s'.c.link.Keys == s.c.link.Keys
  {
    hide Edges, Distinct, Shape, PcOk;
    Tick(s);
    if CanJoin(s.c, Consumer) {
      JoinPreserves(s.c, Consumer);
    }
  }

  /** An undisturbed dequeue neither revives a destroyed node nor leaves a writer behind. */
  lemma {:induction false} FinishKeepsLinks(s: State)
    requires Inv(s) && NobodyBetween(s)
    requires forall w :: w in s.c.writers ==> w == Consumer
    ensures Finish(s).c.link.Keys == s.c.link.Keys
    ensures Finish(s).c.writers == map[]
    ensures Inv(Finish(s))
    decreases Rank(s)
  {
    hide WellFormed, PcOk;
    if s.pc.Idle? {
      assert s.c.writers == map[];
    } else {
      StepKeepsLinks(s);
      FinishKeepsLinks(ConsumerStep(s));
    }
  }

  lemma PendingIsLive(s: State)
    requires Inv(s)
    ensures forall n :: n in Pending(s) ==> n in s.c.link
  {
    WithoutDummyMembers(s.c.log[s.c.popped..]);
  }

  lemma {:induction false} WithoutDummyMembers(ns: seq<Node>)
    ensures forall n :: n in WithoutDummy(ns) ==> n in ns
  {
    if ns != [] {
      WithoutDummyMembers(ns[..|ns| - 1]);
    }
  }
}
