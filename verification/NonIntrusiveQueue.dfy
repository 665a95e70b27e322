/** The non-intrusive queue as a transition system.  Every element travels in a node that enqueue
    allocates and that dequeue deletes one call later; the node at the tail is a stub whose
    data is not wanted any more, and initially was never written. */
module NonIntrusiveQueue {
  import opened Wrappers
  import opened LinkChain

  /** A pointer to an element; the queue never looks behind it. */
  type Value = nat

  const FIRST_STUB: Node := 0

  datatype Pc =
    | Idle(last: Option<Value>)                          // outside dequeue, with the outcome of the last call
    | AtNext(tail: Node)                                 // load the link of the tail
    | AtData(tail: Node, next: Node)                     // read the data of the next node
    | AtStore(tail: Node, next: Node, value: Value)      // move the tail
    | AtDelete(tail: Node, value: Value)                 // delete the former tail and return

  /** `data` holds the data of every live node, None while it has not been written; `vals` records
      the data of each node of the log at its exchange. */
  datatype State = State(c: Chain, data: map<Node, Option<Value>>, vals: seq<Value>, pc: Pc, delivered: seq<Value>)

  datatype Action =
    | Begin(p: nat, node: Node, value: Value)   // a producer enters enqueue; the allocator gives it node
    | Exchange(p: nat)
    | Publish(p: nat)
    | Consume

  function Init(): State {
    State(Single(FIRST_STUB), map[FIRST_STUB := None], [0], Idle(None), [])
  }

  // ---------- steps ----------

  function Read(s: State, n: Node): Option<Value> {
    if n in s.data then s.data[n] else None
  }

  /** Stands for whatever the program would see in memory nobody has written. */
  function Word(v: Option<Value>): Value {
    if v.Some? then v.value else 0
  }

  function ConsumerStep(s: State): State {
    match s.pc
    case Idle(_) => s.(pc := AtNext(s.c.tail))
    case AtNext(t) =>
      var next := Load(s.c, t);
      s.(pc := if next.Some? then AtData(t, next.value) else Idle(None))
    case AtData(t, n) => s.(pc := AtStore(t, n, Word(Read(s, n))))
    case AtStore(t, n, v) => s.(c := Advance(s.c, n), pc := AtDelete(t, v), delivered := s.delivered + [v])
    case AtDelete(t, v) => s.(c := s.c.(link := s.c.link - {t}), data := s.data - {t}, pc := Idle(Some(v)))
  }

  predicate Enabled(s: State, a: Action) {
    match a
    case Begin(p, n, _) => Producer(p) !in s.c.writers && n !in s.c.link
    case Exchange(p) => CanSwap(s.c, Producer(p))
    case Publish(p) => CanJoin(s.c, Producer(p))
    case Consume => true
  }

  function Step(s: State, a: Action): State {
    if !Enabled(s, a) then s else
    match a
    case Begin(p, n, v) => s.(c := Clear(s.c, Producer(p), n), data := s.data[n := Some(v)])
    case Exchange(p) =>
      s.(c := Swap(s.c, Producer(p)), vals := s.vals + [Word(Read(s, s.c.writers[Producer(p)].node))])
    case Publish(p) => s.(c := Join(s.c, Producer(p)))
    case Consume => ConsumerStep(s)
  }

  function Exec(s: State, run: seq<Action>): State
    decreases |run|
  {
    if run == [] then s else Exec(Step(s, run[0]), run[1..])
  }

  // ---------- invariant ----------

  /** The elements enqueued and not yet delivered, oldest first. */
  function Pending(s: State): seq<Value> {
    if s.c.popped < |s.vals| then s.vals[s.c.popped + 1..] else []
  }

  /** The node belongs to an enqueue that has not exchanged the head yet. */
  ghost predicate BeingBuilt(s: State, n: Node) {
    exists w :: w in s.c.writers && s.c.writers[w] == Cleared(n)
  }

  ghost predicate Deleting(s: State, n: Node) {
    s.pc.AtDelete? && s.pc.tail == n
  }

  ghost predicate DataOk(s: State) {
    && |s.vals| == |s.c.log|
    && s.data.Keys == s.c.link.Keys
    && (forall i :: s.c.popped < i < |s.c.log| ==> Read(s, s.c.log[i]) == Some(s.vals[i]))
    && (forall w :: w in s.c.writers && s.c.writers[w].Cleared? ==> Read(s, s.c.writers[w].node).Some?)
  }

  ghost predicate Accounted(s: State, n: Node) {
    InChain(s.c, n) || BeingBuilt(s, n) || Deleting(s, n)
  }

  ghost predicate NoLeak(s: State) {
    forall n :: n in s.c.link ==> Accounted(s, n)
  }

  ghost predicate PcOk(s: State) {
    match s.pc
    case Idle(_) => true
    case AtNext(t) => t == s.c.tail
    case AtData(t, n) => t == s.c.tail && Load(s.c, t) == Some(n)
    case AtStore(t, n, v) => t == s.c.tail && Load(s.c, t) == Some(n) && Read(s, n) == Some(v)
    case AtDelete(t, _) => t in s.c.link && Outside(s.c, t)
  }

  ghost predicate Inv(s: State) {
    && WellFormed(s.c)
    && Consumer !in s.c.writers
    && DataOk(s) && NoLeak(s) && PcOk(s)
    && s.delivered == s.vals[1..s.c.popped + 1]
  }

  lemma InitInv()
    ensures Inv(Init())
  {
    SingleWellFormed(FIRST_STUB);
    assert InChain(Init().c, FIRST_STUB);
  }

  // ---------- preservation ----------

  /** A node stays accounted for while it stays in the chain or with the enqueue that builds it. */
  lemma StillAccounted(s: State, s': State, n: Node)
    requires Accounted(s, n)
    requires s.c.log <= s'.c.log
    requires s'.c.popped == s.c.popped || (s'.c.popped == s.c.popped + 1 && s.c.popped < |s.c.log| && n != s.c.log[s.c.popped])
    requires forall w :: w in s.c.writers && s.c.writers[w] == Cleared(n) ==>
               (w in s'.c.writers && s'.c.writers[w] == Cleared(n)) || InChain(s'.c, n)
    requires Deleting(s, n) ==> Deleting(s', n)
    ensures Accounted(s', n)
  {
    if InChain(s.c, n) {
      var i :| s.c.popped <= i < |s.c.log| && s.c.log[i] == n;
      assert s'.c.log[i] == n;
    } else if BeingBuilt(s, n) {
      var w :| w in s.c.writers && s.c.writers[w] == Cleared(n);
      assert w in s'.c.writers || InChain(s'.c, n);
    }
  }

  lemma BeginData(s: State, a: Action)
    requires Inv(s) && a.Begin? && Enabled(s, a)
    ensures DataOk(Step(s, a)) && PcOk(Step(s, a))
  {
    hide NoLeak, Edges, Distinct, WritersOk;
    var s' := Step(s, a);
    DeadIsOutside(s.c, a.node);
    TailLink(s.c);
    forall i | s.c.popped < i < |s.c.log| ensures Read(s', s'.c.log[i]) == Some(s'.vals[i]) {
      assert InChain(s.c, s.c.log[i]);
    }
    assert InChain(s.c, s.c.tail);
    if s.pc.AtDelete? {
      ChainGrows(s.c, s'.c, s.pc.tail);
    }
  }

  lemma BeginPreserves(s: State, a: Action)
    requires Inv(s) && a.Begin? && Enabled(s, a)
    ensures Inv(Step(s, a))
  {
    var s' := Step(s, a);
    DeadIsOutside(s.c, a.node);
    ClearPreserves(s.c, Producer(a.p), a.node);
    BeginData(s, a);
    hide WellFormed, DataOk, PcOk;
    assert s'.c.writers[Producer(a.p)] == Cleared(a.node);
    forall n | n in s'.c.link ensures Accounted(s', n) {
      if n != a.node {
        StillAccounted(s, s', n);
      } else {
        assert BeingBuilt(s', n);
      }
    }
  }

  lemma ExchangeData(s: State, a: Action)
    requires Inv(s) && a.Exchange? && Enabled(s, a)
    ensures DataOk(Step(s, a)) && PcOk(Step(s, a))
  {
    hide NoLeak, Edges, Distinct, WritersOk;
    var s' := Step(s, a);
    TailLink(s.c);
    SwapLoads(s.c, Producer(a.p), s.c.tail);
    if s.pc.AtDelete? {
      ChainGrows(s.c, s'.c, s.pc.tail);
    }
  }

  lemma SwapLoads(c: Chain, w: Writer, n: Node)
    requires CanSwap(c, w)
    ensures var c' := Swap(c, w);
            && Load(c', n) == Load(c, n) && c'.tail == c.tail && c'.popped == c.popped && c'.link == c.link
            && c'.log == c.log + [c.writers[w].node]
            && forall v :: v in c'.writers && c'.writers[v].Cleared? ==> v in c.writers && c'.writers[v] == c.writers[v]
  {
  }

  lemma ExchangePreserves(s: State, a: Action)
    requires Inv(s) && a.Exchange? && Enabled(s, a)
    ensures Inv(Step(s, a))
  {
    hide WellFormed, DataOk, PcOk;
    var s' := Step(s, a);
    var w := Producer(a.p);
    var m := s.c.writers[w].node;
    SwapPreserves(s.c, w);
    ExchangeData(s, a);
    LogMatches(s);
    assert s'.vals[1..s'.c.popped + 1] == s.vals[1..s.c.popped + 1];
    assert s'.c.log[|s.c.log|] == m && InChain(s'.c, m);
    forall n | n in s'.c.link ensures Accounted(s', n) {
      StillAccounted(s, s', n);
    }
  }

  lemma PublishData(s: State, a: Action)
    requires Inv(s) && a.Publish? && Enabled(s, a)
    ensures DataOk(Step(s, a)) && PcOk(Step(s, a))
  {
    hide NoLeak, Edges, Distinct;
    var s' := Step(s, a);
    var w := Producer(a.p);
    assert WriterOk(s.c, w);
    JoinPreserves(s.c, w);
    if s.pc.AtDelete? {
      ChainGrows(s.c, s'.c, s.pc.tail);
    }
  }

  lemma PublishPreserves(s: State, a: Action)
    requires Inv(s) && a.Publish? && Enabled(s, a)
    ensures Inv(Step(s, a))
  {
    hide WellFormed, DataOk, PcOk;
    var s' := Step(s, a);
    JoinPreserves(s.c, Producer(a.p));
    PublishData(s, a);
    forall n | n in s'.c.link ensures Accounted(s', n) {
      StillAccounted(s, s', n);
    }
  }

  lemma StoreData(s: State)
    requires Inv(s) && s.pc.AtStore?
    ensures DataOk(ConsumerStep(s)) && PcOk(ConsumerStep(s))
    ensures s.c.popped + 1 < |s.vals| && s.pc.value == s.vals[s.c.popped + 1]
  {
    hide NoLeak, Edges, Distinct, WritersOk, Live, Unreferenced;
    AdvancePreserves(s.c, s.pc.next);
    TailLink(s.c);
    TailIsOutside(s.c, s.pc.next);
  }

  lemma TailIsOutside(c: Chain, n: Node)
    requires WellFormed(c) && Load(c, c.tail) == Some(n)
    ensures c.tail in c.link && Outside(Advance(c, n), c.tail)
  {
    AdvancePreserves(c, n);
    TailLink(c);
  }

  lemma TailOfLog(s: State)
    requires Inv(s)
    ensures s.c.popped < |s.c.log| && s.c.log[s.c.popped] == s.c.tail
  {
  }

  lemma StorePreserves(s: State)
    requires Inv(s) && s.pc.AtStore?
    ensures Inv(ConsumerStep(s))
    ensures s.c.popped + 1 < |s.vals| && s.pc.value == s.vals[s.c.popped + 1]
    ensures Unreferenced(ConsumerStep(s).c, s.pc.tail)
  {
    hide WellFormed, DataOk, Unreferenced;
    var s' := ConsumerStep(s);
    AdvancePreserves(s.c, s.pc.next);
    StoreData(s);
    TailOfLog(s);
    assert s.vals[1..s.c.popped + 2] == s.vals[1..s.c.popped + 1] + [s.vals[s.c.popped + 1]];
    forall n | n in s'.c.link ensures Accounted(s', n) {
      if n == s.pc.tail {
        assert Deleting(s', n);
      } else {
        StillAccounted(s, s', n);
      }
    }
  }

  lemma DeleteData(s: State)
    requires Inv(s) && s.pc.AtDelete?
    ensures DataOk(ConsumerStep(s))
  {
    var s' := ConsumerStep(s);
    hide NoLeak, Edges, Distinct, WritersOk;
    forall i | s.c.popped < i < |s.c.log| ensures Read(s', s'.c.log[i]) == Some(s'.vals[i]) {
      assert InChain(s.c, s.c.log[i]);
    }
  }

  lemma DeletePreserves(s: State)
    requires Inv(s) && s.pc.AtDelete?
    ensures Inv(ConsumerStep(s))
  {
    hide WellFormed, DataOk;
    var s' := ConsumerStep(s);
    HeapChangePreserves(s.c, s.pc.tail, s'.c.link);
    DeleteData(s);
    forall n | n in s'.c.link ensures Accounted(s', n) {
      StillAccounted(s, s', n);
    }
  }

  lemma LoadPreserves(s: State)
    requires Inv(s) && (s.pc.Idle? || s.pc.AtNext? || s.pc.AtData?)
    ensures Inv(ConsumerStep(s))
  {
    hide Edges, Distinct, WritersOk, Live, Accounted;
    var s' := ConsumerStep(s);
    TailLink(s.c);
    forall n | n in s'.c.link ensures Accounted(s', n) {
      StillAccounted(s, s', n);
    }
  }

  lemma ConsumerPreserves(s: State)
    requires Inv(s)
    ensures Inv(ConsumerStep(s))
  {
    hide Inv;
    match s.pc {
      case AtStore(_, _, _) => StorePreserves(s);
      case AtDelete(_, _) => DeletePreserves(s);
      case _ => LoadPreserves(s);
    }
  }

  lemma StepPreserves(s: State, a: Action)
    requires Inv(s)
    ensures Inv(Step(s, a))
  {
    hide Inv;
    if Enabled(s, a) {
      match a {
        case Begin(_, _, _) => BeginPreserves(s, a);
        case Exchange(_) => ExchangePreserves(s, a);
        case Publish(_) => PublishPreserves(s, a);
        case Consume => ConsumerPreserves(s);
      }
    }
  }

  lemma {:induction false} ExecInv(s: State, run: seq<Action>)
    requires Inv(s)
    ensures Inv(Exec(s, run))
    decreases |run|
  {
    hide Inv;
    if run != [] {
      StepPreserves(s, run[0]);
      ExecInv(Step(s, run[0]), run[1..]);
    }
  }

  lemma ReachableInv(run: seq<Action>)
    ensures Inv(Exec(Init(), run))
  {
    InitInv();
    ExecInv(Init(), run);
  }

  // ---------- first in, first out ----------

  function Input(s: State, a: Action): seq<Value> {
    if a.Exchange? && Enabled(s, a) then [Word(Read(s, s.c.writers[Producer(a.p)].node))] else []
  }

  /** The element that dequeue fixes as its result by moving the tail. */
  function Output(s: State, a: Action): seq<Value> {
    if a.Consume? && s.pc.AtStore? then [s.pc.value] else []
  }

  function Inputs(s: State, run: seq<Action>): seq<Value>
    decreases |run|
  {
    if run == [] then [] else Input(s, run[0]) + Inputs(Step(s, run[0]), run[1..])
  }

  function Outputs(s: State, run: seq<Action>): seq<Value>
    decreases |run|
  {
    if run == [] then [] else Output(s, run[0]) + Outputs(Step(s, run[0]), run[1..])
  }

  lemma StoreRefinesFifo(s: State)
    requires Inv(s) && s.pc.AtStore?
    ensures Pending(s) == [s.pc.value] + Pending(ConsumerStep(s))
  {
    hide Inv, Unreferenced;
    StorePreserves(s);
    LogMatches(s);
  }

  lemma ExchangeRefinesFifo(s: State, a: Action)
    requires Inv(s) && a.Exchange? && Enabled(s, a)
    ensures Pending(s) + Input(s, a) == Pending(Step(s, a))
  {
    hide Inv, Read, Word;
    LogMatches(s);
  }

  lemma OthersKeepPending(s: State, a: Action)
    requires !(a.Consume? && s.pc.AtStore?) && !(a.Exchange? && Enabled(s, a))
    ensures Pending(Step(s, a)) == Pending(s) && Step(s, a).delivered == s.delivered
    ensures Input(s, a) == [] && Output(s, a) == []
  {
    hide Read, Word, Load;
  }

  /** One step of an abstract first-in first-out queue of elements. */
  lemma StepRefinesFifo(s: State, a: Action)
    requires Inv(s)
    ensures Inv(Step(s, a))
    ensures Pending(s) + Input(s, a) == Output(s, a) + Pending(Step(s, a))
    ensures Step(s, a).delivered == s.delivered + Output(s, a)
  {
    hide Inv, Pending, Read, Word, Load;
    StepPreserves(s, a);
    if a.Consume? && s.pc.AtStore? {
      StoreRefinesFifo(s);
      assert Pending(s) + [] == Pending(s);
    } else if a.Exchange? && Enabled(s, a) {
      ExchangeRefinesFifo(s, a);
      assert [] + Pending(Step(s, a)) == Pending(Step(s, a));
    } else {
      OthersKeepPending(s, a);
      assert Pending(s) + [] == [] + Pending(s) && s.delivered + [] == s.delivered;
    }
  }

  lemma LogMatches(s: State)
    requires Inv(s)
    ensures s.c.popped < |s.vals| == |s.c.log|
  {
  }

  lemma {:induction false} RunConserves(s: State, run: seq<Action>)
    requires Inv(s)
    ensures Inv(Exec(s, run))
    ensures Pending(s) + Inputs(s, run) == Outputs(s, run) + Pending(Exec(s, run))
    ensures Exec(s, run).delivered == s.delivered + Outputs(s, run)
    decreases |run|
  {
    hide Inv;
    if run != [] {
      var s1 := Step(s, run[0]);
      StepRefinesFifo(s, run[0]);
      RunConserves(s1, run[1..]);
      Splice(Pending(s), Input(s, run[0]), Output(s, run[0]), Pending(s1),
             Inputs(s1, run[1..]), Outputs(s1, run[1..]), Pending(Exec(s, run)));
    }
  }

  /** Under every interleaving the delivered elements are a prefix of the elements in the order in
      which their nodes were exchanged into the head, and the rest of that order is still queued. */
  lemma RefinesFifo(run: seq<Action>)
    ensures Inv(Exec(Init(), run))
    ensures Inputs(Init(), run) == Exec(Init(), run).delivered + Pending(Exec(Init(), run))
  {
    hide Inv;
    InitInv();
    RunConserves(Init(), run);
    var ins, outs := Inputs(Init(), run), Outputs(Init(), run);
    assert Pending(Init()) == [] && [] + ins == ins && [] + outs == outs;
  }

  /** A finished call returns the element it delivered: the result is the last delivered element. */
  lemma ResultIsDelivered(s: State)
    requires Inv(s) && s.pc.AtStore?
    ensures var s1 := ConsumerStep(s);
            && s1.delivered == s.delivered + Pending(s)[..1]
            && ConsumerStep(s1).pc == Idle(Some(s1.delivered[|s1.delivered| - 1]))
  {
    hide WellFormed, Unreferenced, NoLeak;
    StorePreserves(s);
    var s1 := ConsumerStep(s);
    assert s1.delivered[|s1.delivered| - 1] == s.pc.value;
  }

  // ---------- memory ----------

  ghost function Touches(s: State, a: Action): set<Node> {
    if !Enabled(s, a) then {} else
    match a
    case Begin(_, _, _) => {}
    case Exchange(_) => {}
    case Publish(p) => {s.c.writers[Producer(p)].prev}
    case Consume =>
      match s.pc
      case Idle(_) => {}
      case AtNext(t) => {t}
      case AtData(_, n) => {n}
      case AtStore(_, _, _) => {}
      case AtDelete(t, _) => {t}
  }

  /** No step of any run touches a deleted node, and data that was never written is never read. */
  lemma NoUseAfterFree(run: seq<Action>, a: Action)
    ensures var s := Exec(Init(), run);
            && Touches(s, a) <= s.c.link.Keys
            && (a.Consume? && s.pc.AtData? ==> Read(s, s.pc.next).Some?)
  {
    hide Distinct, Edges, NoLeak;
    ReachableInv(run);
    var s := Exec(Init(), run);
    TailLink(s.c);
    if Enabled(s, a) && a.Publish? {
      JoinPreserves(s.c, Producer(a.p));
    }
  }

  /** A node is deleted only when nothing refers to it: not head or tail, not the chain, not any enqueue. */
  lemma DeletedIsUnreferenced(run: seq<Action>)
    ensures var s := Exec(Init(), run); s.pc.AtDelete? ==> Unreferenced(s.c, s.pc.tail)
  {
    ReachableInv(run);
    var s := Exec(Init(), run);
    if s.pc.AtDelete? {
      OutsideIsUnreferenced(s.c, s.pc.tail);
    }
  }

  ghost function ChainNodes(s: State): set<Node> {
    set i | s.c.popped <= i < |s.c.log| :: s.c.log[i]
  }

  ghost function BuiltNodes(s: State): set<Node> {
    set w | w in s.c.writers && s.c.writers[w].Cleared? :: s.c.writers[w].node
  }

  ghost function DeletedNodes(s: State): set<Node> {
    if s.pc.AtDelete? then {s.pc.tail} else {}
  }

  lemma {:induction false} DistinctCount(ns: seq<Node>)
    requires forall i, j :: 0 <= i < j < |ns| ==> ns[i] != ns[j]
    ensures |set i | 0 <= i < |ns| :: ns[i]| == |ns|
  {
    if ns != [] {
      var k := |ns| - 1;
      var front := ns[..k];
      DistinctCount(front);
      assert (set i | 0 <= i < |ns| :: ns[i]) == (set i | 0 <= i < k :: front[i]) + {ns[k]};
    }
  }

  lemma ChainNodesAre(s: State)
    requires s.c.popped <= |s.c.log|
    ensures var ns := s.c.log[s.c.popped..]; ChainNodes(s) == set i | 0 <= i < |ns| :: ns[i]
  {
    var ns := s.c.log[s.c.popped..];
    forall n | n in ChainNodes(s) ensures n in (set i | 0 <= i < |ns| :: ns[i]) {
      var i :| s.c.popped <= i < |s.c.log| && s.c.log[i] == n;
      assert ns[i - s.c.popped] == n;
    }
    forall n | n in (set i | 0 <= i < |ns| :: ns[i]) ensures n in ChainNodes(s) {
      var i :| 0 <= i < |ns| && ns[i] == n;
      assert s.c.log[i + s.c.popped] == n;
    }
  }

  lemma ChainCount(s: State)
    requires Inv(s)
    ensures |ChainNodes(s)| == |Pending(s)| + 1
  {
    hide ChainNodes, NoLeak, PcOk, Edges, WritersOk;
    ChainNodesAre(s);
    DistinctCount(s.c.log[s.c.popped..]);
  }

  /** Nothing leaks and nothing is lost: in every reachable state the live nodes are the undelivered
      ones, exactly one stub, those of enqueues still before their exchange, and the one being deleted. */
  lemma LiveNodes(run: seq<Action>)
    ensures var s := Exec(Init(), run);
            && s.c.link.Keys == ChainNodes(s) + BuiltNodes(s) + DeletedNodes(s)
            && |s.c.link| == |Pending(s)| + 1 + |BuiltNodes(s)| + |DeletedNodes(s)|
  {
    ReachableInv(run);
    var s := Exec(Init(), run);
    ChainCount(s);
    LiveNodesAre(s);
    assert |s.c.link| == |s.c.link.Keys|;
  }

  lemma LiveNodesAre(s: State)
    requires Inv(s)
    ensures s.c.link.Keys == ChainNodes(s) + BuiltNodes(s) + DeletedNodes(s)
    ensures ChainNodes(s) !! BuiltNodes(s) !! DeletedNodes(s)
  {
    hide Edges, Distinct, DataOk;
    forall n | n in s.c.link ensures n in ChainNodes(s) + BuiltNodes(s) + DeletedNodes(s) {
      assert Accounted(s, n);
      if InChain(s.c, n) {
        assert n in ChainNodes(s);
      } else if BeingBuilt(s, n) {
        var w :| w in s.c.writers && s.c.writers[w] == Cleared(n);
        assert n in BuiltNodes(s);
      }
    }
    forall n | n in BuiltNodes(s) ensures n in s.c.link && n !in ChainNodes(s) {
      var w :| w in s.c.writers && s.c.writers[w].Cleared? && s.c.writers[w].node == n;
      assert WriterOk(s.c, w);
    }
    assert forall n :: n in ChainNodes(s) ==> InChain(s.c, n);
  }

  // ---------- progress ----------

  function Rank(s: State): nat {
    match s.pc
    case Idle(_) => 0
    case AtDelete(_, _) => 1
    case AtStore(_, _, _) => 2
    case AtData(_, _) => 3
    case AtNext(_) => 4
  }

  function Finish(s: State): (s': State)
    ensures s'.pc.Idle?
    decreases Rank(s)
  {
    if s.pc.Idle? then s else Finish(ConsumerStep(s))
  }

  /** A call of dequeue that nobody interrupts. */
  function Dequeue(s: State): State
    requires s.pc.Idle?
  {
    Finish(ConsumerStep(s))
  }

  ghost predicate Quiescent(s: State) {
    s.pc.Idle? && forall w :: w in s.c.writers ==> s.c.writers[w].Cleared?
  }

  lemma {:induction false} FinishDelivers(s: State)
    requires Inv(s) && (s.pc.AtData? || s.pc.AtStore?)
    ensures var s' := Finish(s);
            && Inv(s') && s'.c.writers == s.c.writers
            && |Pending(s)| > 0 && s'.pc == Idle(Some(Pending(s)[0])) && Pending(s') == Pending(s)[1..]
            && s'.c.link.Keys == s.c.link.Keys - {s.pc.tail}
    decreases Rank(s)
  {
    hide Inv, Unreferenced, Pending;
    var s1 := ConsumerStep(s);
    StepRefinesFifo(s, Consume);
    assert Pending(s) + [] == Pending(s);
    if s.pc.AtData? {
      assert [] + Pending(s1) == Pending(s1);
      FinishDelivers(s1);
    } else {
      assert Pending(s) == [s.pc.value] + Pending(s1);
      StepRefinesFifo(s1, Consume);
      assert Pending(s1) + [] == Pending(s1) && [] + Pending(ConsumerStep(s1)) == Pending(ConsumerStep(s1));
      assert ([s.pc.value] + Pending(s1))[1..] == Pending(s1);
      assert Finish(s) == Finish(s1) == Finish(ConsumerStep(s1)) == ConsumerStep(s1);
    }
  }

  /** Under every interleaving: a call returns nothing if and only if, when it loads the link of the stub, nothing
      is pending or the oldest pending element belongs to an enqueue between its exchange and its store. */
  lemma NothingIff(s: State)
    requires Inv(s) && s.pc.AtNext?
    ensures ConsumerStep(s).pc == Idle(None) <==> Pending(s) == [] || Broken(s.c, s.c.popped + 1)
    ensures Broken(s.c, s.c.popped + 1) ==>
              exists p :: Producer(p) in s.c.writers && s.c.writers[Producer(p)].Swapped?
  {
    hide Edges, Distinct, NoLeak, WritersOk;
    TailLink(s.c);
    LogMatches(s);
    if Broken(s.c, s.c.popped + 1) {
      var w :| w in s.c.writers && s.c.writers[w].Swapped? && s.c.writers[w].at == s.c.popped + 1;
      assert w == Producer(w.id);
    }
  }

  /** Quiescent completeness: with no enqueue between exchange and link store, an undisturbed dequeue
      returns the oldest pending element, and nothing exactly when nothing is pending. */
  lemma QuiescentDequeue(s: State)
    requires Inv(s) && Quiescent(s)
    ensures var s' := Dequeue(s);
            && Inv(s') && Quiescent(s') && s'.c.writers == s.c.writers
            && (s'.pc == Idle(None) <==> Pending(s) == [])
            && (s'.pc == Idle(None) ==> s'.c == s.c && s'.data == s.data && Pending(s') == [])
            && (s'.pc != Idle(None) ==> s'.pc == Idle(Some(Pending(s)[0])) && Pending(s') == Pending(s)[1..])
  {
    hide Edges, Distinct, Live, WritersOk, NoLeak;
    var s1 := ConsumerStep(s);
    ConsumerPreserves(s);
    var s2 := ConsumerStep(s1);
    ConsumerPreserves(s1);
    TailLink(s.c);
    if s2.pc.AtData? {
      FinishDelivers(s2);
      assert Finish(s1) == Finish(s2);
    } else {
      assert Finish(s1) == Finish(s2) == s2;
    }
  }

  /** A reachable state in which a call returns nothing although two elements are pending, the second of them
      enqueued completely: the first enqueue has not stored its link. */
  lemma PendingButNothing(v: Value, v': Value)
    ensures var run := [Begin(0, 1, v), Exchange(0), Begin(1, 2, v'), Exchange(1), Publish(1), Consume];
            var s := Exec(Init(), run);
            && Pending(s) == [v, v'] && s.c.writers.Keys == {Producer(0)}
            && s.pc.AtNext? && ConsumerStep(s).pc == Idle(None)
  {
    hide Exec, Step;
    FirstExchange(v);
    SecondEnqueue(v, v');
    var s2 := Step(Step(Init(), Begin(0, 1, v)), Exchange(0));
    var s5 := Step(Step(Step(s2, Begin(1, 2, v')), Exchange(1)), Publish(1));
    ThenConsume(s5);
    SixSteps(Begin(0, 1, v), Exchange(0), Begin(1, 2, v'), Exchange(1), Publish(1), Consume);
  }

  lemma FirstExchange(v: Value)
    ensures Step(Step(Init(), Begin(0, 1, v)), Exchange(0))
         == State(Chain(1, 0, map[0 := None, 1 := None], map[Producer(0) := Swapped(1, 0, 1)], [0, 1], 0),
                  map[0 := None, 1 := Some(v)], [0, v], Idle(None), [])
  {
    var s1 := Step(Init(), Begin(0, 1, v));
    assert s1.c == Chain(0, 0, map[0 := None, 1 := None], map[Producer(0) := Cleared(1)], [0], 0);
  }

  lemma SecondEnqueue(v: Value, v': Value)
    ensures var s2 := State(Chain(1, 0, map[0 := None, 1 := None], map[Producer(0) := Swapped(1, 0, 1)], [0, 1], 0),
                            map[0 := None, 1 := Some(v)], [0, v], Idle(None), []);
            var s5 := Step(Step(Step(s2, Begin(1, 2, v')), Exchange(1)), Publish(1));
            && s5.c.link == map[0 := None, 1 := Some(2), 2 := None] && s5.c.tail == 0 && s5.c.popped == 0
            && s5.vals == [0, v, v'] && s5.pc == Idle(None) && s5.c.writers.Keys == {Producer(0)}
  {
    var p, q := Producer(0), Producer(1);
    var s2 := State(Chain(1, 0, map[0 := None, 1 := None], map[p := Swapped(1, 0, 1)], [0, 1], 0),
                    map[0 := None, 1 := Some(v)], [0, v], Idle(None), []);
    var s3 := Step(s2, Begin(1, 2, v'));
    assert s3.c.writers == map[p := Swapped(1, 0, 1), q := Cleared(2)] && s3.c.log == [0, 1];
    var s4 := Step(s3, Exchange(1));
    assert s4.c.writers == map[p := Swapped(1, 0, 1), q := Swapped(2, 1, 2)] && s4.vals == [0, v, v'];
    assert Step(s4, Publish(1)).c.link == map[0 := None, 1 := Some(2), 2 := None];
  }

  lemma ThenConsume(s: State)
    requires s.pc.Idle? && Load(s.c, s.c.tail) == None
    ensures var s' := Step(s, Consume);
            s' == s.(pc := AtNext(s.c.tail)) && ConsumerStep(s').pc == Idle(None)
  {
  }

  lemma FirstStep(s: State, a: Action, run: seq<Action>)
    ensures Exec(s, [a] + run) == Exec(Step(s, a), run)
  {
    assert ([a] + run)[1..] == run;
  }

  lemma SixSteps(a: Action, b: Action, c: Action, d: Action, e: Action, f: Action)
    ensures Exec(Init(), [a, b, c, d, e, f]) == Step(Step(Step(Step(Step(Step(Init(), a), b), c), d), e), f)
  {
    hide Step;
    var s3 := Step(Step(Step(Init(), a), b), c);
    assert [a, b, c, d, e, f] == [a] + ([b] + ([c] + ([d] + ([e] + ([f] + [])))));
    FirstStep(Init(), a, [b] + ([c] + ([d] + ([e] + ([f] + [])))));
    FirstStep(Step(Init(), a), b, [c] + ([d] + ([e] + ([f] + []))));
    FirstStep(Step(Step(Init(), a), b), c, [d] + ([e] + ([f] + [])));
    FirstStep(s3, d, [e] + ([f] + []));
    FirstStep(Step(s3, d), e, [f] + []);
    FirstStep(Step(Step(s3, d), e), f, []);
  }
}
