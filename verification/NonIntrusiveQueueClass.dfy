/** The non-intrusive queue as its class is written, with other threads between the atomic accesses.
    The heap of nodes is the pair of maps `link` and `data`. */
module NonIntrusiveQueueClass {
  import opened Wrappers
  import opened LinkChain
  import opened NonIntrusiveQueue

  predicate By(a: Action, w: Writer) {
    match a
    case Consume => w == Consumer
    case Begin(p, _, _) => w == Producer(p)
    case Exchange(p) => w == Producer(p)
    case Publish(p) => w == Producer(p)
  }

  predicate OthersOnly(run: seq<Action>, w: Writer) {
    forall i :: 0 <= i < |run| ==> !By(run[i], w)
  }

  /** What a run of the other threads leaves alone from the point of view of w. */
  ghost predicate Rely(s: State, s': State, w: Writer) {
    && s.vals <= s'.vals
    && (w in s.c.writers <==> w in s'.c.writers)
    && (w in s.c.writers ==> s'.c.writers[w] == s.c.writers[w])
    && (w in s.c.writers && s.c.writers[w].Cleared? ==> Read(s', s.c.writers[w].node) == Read(s, s.c.writers[w].node))
    && (w == Consumer ==>
          s'.pc == s.pc && s'.c.tail == s.c.tail && s'.c.popped == s.c.popped && s'.delivered == s.delivered)
  }

  lemma OneOtherSatisfiesRely(s: State, a: Action, w: Writer)
    requires Inv(s) && !By(a, w)
    ensures Rely(s, Step(s, a), w)
  {
    hide Edges, Distinct, NoLeak, DataOk;
    if w in s.c.writers {
      assert WriterOk(s.c, w);
    }
  }

  lemma {:induction false} OthersSatisfyRely(s: State, run: seq<Action>, w: Writer)
    requires Inv(s) && OthersOnly(run, w)
    ensures Inv(Exec(s, run)) && Rely(s, Exec(s, run), w)
    decreases |run|
  {
    hide Inv;
    if run != [] {
      StepPreserves(s, run[0]);
      OneOtherSatisfiesRely(s, run[0], w);
      OthersSatisfyRely(Step(s, run[0]), run[1..], w);
    }
  }

  /** As in the contracts below: before its last access a call delivers nothing, and when nobody
      interferes its outcome is still the same. */
  ghost predicate Keeps(s: State, s': State, alone: bool) {
    && s.vals <= s'.vals
    && s'.delivered == s.delivered
    && (alone ==> Finish(s') == Finish(s))
  }

  lemma Tick(s: State)
    requires Inv(s)
    ensures Inv(ConsumerStep(s))
    ensures !s.pc.Idle? ==> Finish(s) == Finish(ConsumerStep(s))
  {
    ConsumerPreserves(s);
  }

  class MpscQueueNonIntrusive {
    var head: Node
    var tail: Node
    var link: map<Node, Option<Node>>
    var data: map<Node, Option<Value>>
    ghost var writers: map<Writer, Phase>
    ghost var log: seq<Node>
    ghost var vals: seq<Value>
    ghost var popped: nat
    ghost var pc: Pc
    ghost var delivered: seq<Value>

    ghost function Now(): State
      reads this
    {
      State(Chain(head, tail, link, writers, log, popped), data, vals, pc, delivered)
    }

    constructor ()
      ensures Now() == Init() && Inv(Now())
    {
      head := FIRST_STUB;
      tail := FIRST_STUB;
      link := map[FIRST_STUB := None];
      data := map[FIRST_STUB := None];
      writers, log, vals, popped := map[], [FIRST_STUB], [0], 0;
      pc, delivered := Idle(None), [];
      new;
      InitInv();
    }

    /** The other threads execute any number of steps; when `alone` holds there are none that do.
        The body is the run without a step: callers know only the contract. */
    method Interfere(ghost w: Writer, ghost alone: bool)
      requires Inv(Now())
      modifies this
      ensures exists run :: OthersOnly(run, w) && Now() == Exec(old(Now()), run)
      ensures alone ==> Now() == old(Now())
    {
      assert OthersOnly([], w) && Now() == Exec(old(Now()), []);
    }

    method Yield(ghost w: Writer, ghost alone: bool)
      requires Inv(Now())
      modifies this
      ensures Inv(Now()) && Rely(old(Now()), Now(), w)
      ensures alone ==> Now() == old(Now())
    {
      hide Inv;
      ghost var s := Now();
      Interfere(w, alone);
      ghost var run :| OthersOnly(run, w) && Now() == Exec(s, run);
      OthersSatisfyRely(s, run, w);
    }

    /** A producer's enqueue; `node` is the address the allocator returns.  On return the element has
        its place in the order of the exchanges. */
    method Enqueue(ghost p: nat, node: Node, input: Value)
      requires Inv(Now()) && Enabled(Now(), Begin(p, node, input))
      modifies this
      ensures Inv(Now()) && Producer(p) !in writers
      ensures old(vals) <= vals && exists i :: |old(vals)| <= i < |vals| && vals[i] == input
    {
      hide Inv;
      ghost var w := Producer(p);
      ghost var s := Now();
      data := data[node := Some(input)];
      link := link[node := None];
      writers := writers[w := Cleared(node)];
      BeginPreserves(s, Begin(p, node, input));
      Yield(w, false);
      var previousHead := SwapHead(w, node, input);
      ghost var i :| |old(vals)| <= i < |vals| && vals[i] == input;
      Yield(w, false);
      assert vals[i] == input;
      s := Now();
      link := link[previousHead := Some(node)];
      writers := writers - {w};
      PublishPreserves(s, Publish(p));
    }

    method SwapHead(ghost w: Writer, node: Node, ghost input: Value) returns (previousHead: Node)
      requires Inv(Now()) && w.Producer? && w in writers && writers[w] == Cleared(node)
      requires Read(Now(), node) == Some(input)
      modifies this
      ensures Inv(Now()) && vals == old(vals) + [input]
      ensures w in writers && writers[w].Swapped? && writers[w].prev == previousHead && writers[w].node == node
      ensures delivered == old(delivered) && pc == old(pc)
    {
      hide Inv;
      ghost var s := Now();
      previousHead := head;
      head := node;
      writers := writers[w := Swapped(node, previousHead, |log|)];
      log := log + [node];
      vals := vals + [input];
      ExchangePreserves(s, Exchange(w.id));
    }

    method LoadTail(ghost alone: bool) returns (front: Node)
      requires Inv(Now()) && pc.Idle?
      modifies this
      ensures Inv(Now()) && pc == AtNext(front) && front == old(tail)
      ensures old(vals) <= vals && delivered == old(delivered)
      ensures alone ==> Finish(Now()) == NonIntrusiveQueue.Dequeue(old(Now()))
    {
      hide Inv;
      ghost var s := Now();
      front := tail;
      pc := AtNext(front);
      Tick(s);
      Yield(Consumer, alone);
    }

    method LoadNext(front: Node, ghost alone: bool) returns (next: Option<Node>)
      requires Inv(Now()) && pc == AtNext(front)
      modifies this
      ensures Inv(Now()) && Keeps(old(Now()), Now(), alone)
      ensures pc == if next.Some? then AtData(front, next.value) else Idle(None)
    {
      hide WellFormed, DataOk, NoLeak;
      ghost var s := Now();
      TailLink(s.c);
      next := link[front];
      pc := if next.Some? then AtData(front, next.value) else Idle(None);
      Tick(s);
      Yield(Consumer, alone);
    }

    /** The data read here has been written: the node is behind the stub. */
    method LoadData(front: Node, next: Node, ghost alone: bool) returns (value: Value)
      requires Inv(Now()) && pc == AtData(front, next)
      modifies this
      ensures Inv(Now()) && Keeps(old(Now()), Now(), alone)
      ensures pc == AtStore(front, next, value)
    {
      ghost var s := Now();
      NextHasData(s);
      hide Inv;
      value := data[next].value;
      pc := AtStore(front, next, value);
      Tick(s);
      Yield(Consumer, alone);
    }

    method StoreTail(front: Node, next: Node, value: Value, ghost alone: bool)
      requires Inv(Now()) && pc == AtStore(front, next, value)
      modifies this
      ensures Inv(Now()) && pc == AtDelete(front, value)
      ensures old(vals) <= vals && delivered == old(delivered) + [value]
      ensures alone ==> Finish(Now()) == Finish(old(Now()))
    {
      hide Inv;
      ghost var s := Now();
      tail := next;
      popped := popped + 1;
      delivered := delivered + [value];
      pc := AtDelete(front, value);
      Tick(s);
      Yield(Consumer, alone);
    }

    method DeleteNode(front: Node, ghost value: Value)
      requires Inv(Now()) && pc == AtDelete(front, value)
      modifies this
      ensures Inv(Now()) && pc == Idle(Some(value))
      ensures vals == old(vals) && delivered == old(delivered)
      ensures Unreferenced(Now().c, front) && front !in link
      ensures Now() == Finish(old(Now()))
    {
      hide DataOk, NoLeak;
      ghost var s := Now();
      OutsideIsUnreferenced(s.c, front);
      hide Edges, Distinct, Live, WritersOk;
      link := link - {front};
      data := data - {front};
      pc := Idle(Some(value));
      Tick(s);
      assert Now() == Finish(Now());
    }

    /** Dequeue with the other threads running in between: it returns the next element of the exchange
        order, or nothing.  Undisturbed, it is the transition system's dequeue. */
    method Dequeue(ghost alone: bool) returns (result: Option<Value>)
      requires Inv(Now()) && pc.Idle?
      modifies this
      ensures Inv(Now()) && pc == Idle(result) && old(vals) <= vals
      ensures delivered == old(delivered) + (if result.Some? then [result.value] else [])
      ensures alone ==> Now() == NonIntrusiveQueue.Dequeue(old(Now()))
    {
      hide Inv;
      var front := LoadTail(alone);
      var next := LoadNext(front, alone);
      if next.None? {
        return None;
      }
      var value := LoadData(front, next.value, alone);
      StoreTail(front, next.value, value, alone);
      DeleteNode(front, value);
      result := Some(value);
    }

    /** The destructor, with all producers gone: the loop terminates and hands over every pending
        element exactly once in queue order; deleting the head node then frees the last live node. */
    method DrainAndDelete() returns (deleted: seq<Value>)
      requires Inv(Now()) && pc.Idle? && writers == map[]
      modifies this
      ensures deleted == old(Pending(Now()))
      ensures link.Keys == {}
    {
      hide Inv, Pending;
      deleted := [];
      ghost var all := Pending(Now());
      while true
        invariant Inv(Now()) && pc.Idle? && writers == map[]
        invariant all == deleted + Pending(Now())
        decreases |Pending(Now())|
      {
        QuiescentDequeue(Now());
        var output := Dequeue(true);
        if output.None? {
          break;
        }
        deleted := deleted + [output.value];
      }
      OnlyStubLeft(Now());
      link := link - {head};
      data := data - {head};
    }
  }

  lemma NextHasData(s: State)
    requires Inv(s) && s.pc.AtData?
    ensures Read(s, s.pc.next).Some?
  {
    TailLink(s.c);
  }

  lemma OnlyStubLeft(s: State)
    requires Inv(s) && s.pc.Idle? && s.c.writers == map[] && Pending(s) == []
    ensures s.c.link.Keys == {s.c.head}
  {
    LiveNodesAre(s);
    hide Edges, Distinct, WritersOk, NoLeak;
    assert s.c.popped + 1 == |s.c.log|;
    assert BuiltNodes(s) == {};
    assert ChainNodes(s) == {s.c.head};
  }
}
