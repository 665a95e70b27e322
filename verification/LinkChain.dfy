/** The linked chain underneath both multi-producer single-consumer queues.

    Memory is a map from the live nodes to their link; a node that is absent has been
    destroyed or was never created.  Three atomic steps make up an enqueue: the link of the
    new node is cleared, the node is swapped into the head, and the node is joined to the
    former head.  Between the last two steps the chain is broken in front of the new node.

    Two components are history: `log` lists every node in the order of the head swaps, and
    `popped` counts the entries of `log` that the tail has left behind. */
module LinkChain {
  import opened Wrappers

  type Node = nat

  datatype Writer = Consumer | Producer(id: nat)

  /** How far a writer has got inside enqueue; `at` is the position of its node in the log. */
  datatype Phase = Cleared(node: Node) | Swapped(node: Node, prev: Node, at: nat)

  datatype Chain = Chain(
    head: Node,
    tail: Node,
    link: map<Node, Option<Node>>,
    writers: map<Writer, Phase>,
    log: seq<Node>,
    popped: nat)

  /** A chain of one node, as the constructors of both queues leave it. */
  function Single(n: Node): Chain {
    Chain(n, n, map[n := None], map[], [n], 0)
  }

  // ---------- atomic steps ----------

  function Load(c: Chain, n: Node): Option<Node> {
    if n in c.link then c.link[n] else None
  }

  function Clear(c: Chain, w: Writer, n: Node): Chain {
    c.(link := c.link[n := None], writers := c.writers[w := Cleared(n)])
  }

  predicate CanSwap(c: Chain, w: Writer) {
    w in c.writers && c.writers[w].Cleared?
  }

  function Swap(c: Chain, w: Writer): Chain
    requires CanSwap(c, w)
  {
    var n := c.writers[w].node;
    c.(head := n, writers := c.writers[w := Swapped(n, c.head, |c.log|)], log := c.log + [n])
  }

  predicate CanJoin(c: Chain, w: Writer) {
    w in c.writers && c.writers[w].Swapped?
  }

  function Join(c: Chain, w: Writer): Chain
    requires CanJoin(c, w)
  {
    var ph := c.writers[w];
    c.(link := c.link[ph.prev := Some(ph.node)], writers := c.writers - {w})
  }

  function Advance(c: Chain, n: Node): Chain {
    c.(tail := n, popped := c.popped + 1)
  }

  // ---------- invariant ----------

  ghost predicate InChain(c: Chain, n: Node) {
    exists i :: c.popped <= i < |c.log| && c.log[i] == n
  }

  ghost predicate Shape(c: Chain) {
    && c.popped < |c.log|
    && c.log[c.popped] == c.tail
    && c.log[|c.log| - 1] == c.head
  }

  ghost predicate Distinct(c: Chain) {
    forall i, j :: c.popped <= i < j < |c.log| ==> c.log[i] != c.log[j]
  }

  ghost predicate Live(c: Chain) {
    forall i :: c.popped <= i < |c.log| ==> c.log[i] in c.link
  }

  /** Some writer has swapped in the node at position `at` and has not joined it yet. */
  ghost predicate Broken(c: Chain, at: nat) {
    exists w :: w in c.writers && c.writers[w].Swapped? && c.writers[w].at == at
  }

  /** The link out of position i is the next node of the log, or null while that edge is broken. */
  ghost predicate Edge(c: Chain, i: nat)
    requires i + 1 < |c.log|
  {
    || Load(c, c.log[i]) == Some(c.log[i + 1])
    || (Load(c, c.log[i]) == None && Broken(c, i + 1))
  }

  ghost predicate Edges(c: Chain) {
    && Load(c, c.head) == None
    && forall i: nat :: c.popped <= i && i + 1 < |c.log| ==> Edge(c, i)
  }

  ghost predicate WriterOk(c: Chain, w: Writer)
    requires w in c.writers
  {
    match c.writers[w]
    case Cleared(n) =>
      n in c.link && c.link[n] == None && !InChain(c, n)
    case Swapped(n, p, at) =>
      && c.popped < at < |c.log| && c.log[at] == n && c.log[at - 1] == p
      && Load(c, p) == None
  }

  ghost predicate WritersOk(c: Chain) {
    && (forall w :: w in c.writers ==> WriterOk(c, w))
    && (forall w, x :: w in c.writers && x in c.writers && w != x ==> c.writers[w].node != c.writers[x].node)
  }

  ghost predicate WellFormed(c: Chain) {
    Shape(c) && Distinct(c) && Live(c) && Edges(c) && WritersOk(c)
  }

  /** No enqueue holds the node, and the chain does not contain it: its owner may do what it likes with it. */
  ghost predicate Outside(c: Chain, n: Node) {
    !InChain(c, n) && forall w :: w in c.writers ==> c.writers[w].node != n
  }

  // ---------- preservation ----------

  lemma SingleWellFormed(n: Node)
    ensures WellFormed(Single(n))
  {
  }

  /** A chain whose log has grown, and whose tail has not gone back, contains nothing but old and new nodes. */
  lemma ChainGrows(c: Chain, d: Chain, n: Node)
    requires c.log <= d.log && c.popped <= d.popped
    ensures InChain(d, n) ==> InChain(c, n) || n in d.log[|c.log|..]
  {
    if InChain(d, n) {
      var i :| d.popped <= i < |d.log| && d.log[i] == n;
      if i < |c.log| {
        assert c.log[i] == n;
      } else {
        assert d.log[|c.log|..][i - |c.log|] == n;
      }
    }
  }

  /** Whatever happens to other memory and to writers that have not swapped yet, the chain itself stays good. */
  lemma ChainFrame(c: Chain, d: Chain)
    requires WellFormed(c)
    requires d.log == c.log && d.popped == c.popped && d.head == c.head && d.tail == c.tail
    requires forall n :: InChain(c, n) ==> n in d.link && d.link[n] == Load(c, n)
    requires forall w :: w in c.writers && c.writers[w].Swapped? ==> w in d.writers && d.writers[w] == c.writers[w]
    ensures Shape(d) && Distinct(d) && Live(d) && Edges(d)
  {
    hide WritersOk;
    assert forall i :: c.popped <= i < |c.log| ==> InChain(c, c.log[i]);
    forall i: nat | d.popped <= i && i + 1 < |d.log| ensures Edge(d, i) {
      assert Edge(c, i) && InChain(c, c.log[i]);
      if Broken(c, i + 1) {
        var w :| w in c.writers && c.writers[w].Swapped? && c.writers[w].at == i + 1;
        assert w in d.writers;
      }
    }
    assert InChain(c, c.head);
  }

  lemma WriterFrame(c: Chain, d: Chain, w: Writer)
    requires WellFormed(c)
    requires d.log == c.log && d.popped == c.popped
    requires w in c.writers && w in d.writers && c.writers[w] == d.writers[w]
    requires forall n :: InChain(c, n) || n == c.writers[w].node ==> n in d.link && d.link[n] == Load(c, n)
    ensures WriterOk(d, w)
  {
    hide Distinct, Edges;
    assert WriterOk(c, w);
    if c.writers[w].Swapped? {
      assert InChain(c, c.log[c.writers[w].at - 1]);
    } else {
      ChainGrows(c, d, c.writers[w].node);
    }
  }

  lemma ClearPreserves(c: Chain, w: Writer, n: Node)
    requires WellFormed(c) && w !in c.writers && Outside(c, n)
    ensures WellFormed(Clear(c, w, n))
  {
    hide Distinct, Edges;
    var d := Clear(c, w, n);
    assert forall m :: InChain(c, m) ==> m in c.link;
    ChainFrame(c, d);
    forall x | x in d.writers ensures WriterOk(d, x) {
      if x != w {
        assert WriterOk(c, x);
        WriterFrame(c, d, x);
      } else {
        ChainGrows(c, d, n);
      }
    }
  }

  lemma SwapKeepsChain(c: Chain, w: Writer)
    requires WellFormed(c) && CanSwap(c, w)
    ensures var d := Swap(c, w); Shape(d) && Distinct(d) && Live(d) && Edges(d)
  {
    var d := Swap(c, w);
    var n := c.writers[w].node;
    assert WriterOk(c, w);
    assert forall i :: c.popped <= i < |c.log| ==> c.log[i] != n;
    assert d.writers[w] == Swapped(n, c.head, |c.log|);
    forall i: nat | d.popped <= i && i + 1 < |d.log| ensures Edge(d, i) {
      if i + 1 == |c.log| {
        assert d.log[i] == c.head && Broken(d, i + 1);
      } else {
        assert Edge(c, i);
        if Broken(c, i + 1) {
          var x :| x in c.writers && c.writers[x].Swapped? && c.writers[x].at == i + 1;
          assert x != w && d.writers[x] == c.writers[x];
        }
      }
    }
  }

  lemma SwapKeepsWriters(c: Chain, w: Writer)
    requires WellFormed(c) && CanSwap(c, w)
    ensures WritersOk(Swap(c, w))
  {
    hide Distinct;
    var d := Swap(c, w);
    var n := c.writers[w].node;
    forall x | x in d.writers ensures WriterOk(d, x) {
      assert WriterOk(c, x);
      if x != w {
        assert c.writers[x].node != n;
        ChainGrows(c, d, c.writers[x].node);
      }
    }
  }

  lemma SwapPreserves(c: Chain, w: Writer)
    requires WellFormed(c) && CanSwap(c, w)
    ensures WellFormed(Swap(c, w))
  {
    SwapKeepsChain(c, w);
    SwapKeepsWriters(c, w);
  }

  lemma JoinKeepsChain(c: Chain, w: Writer)
    requires WellFormed(c) && CanJoin(c, w)
    ensures var d := Join(c, w); Shape(d) && Distinct(d) && Live(d) && Edges(d)
    ensures InChain(c, c.writers[w].prev) && c.writers[w].prev in c.link
  {
    var d := Join(c, w);
    var ph := c.writers[w];
    assert WriterOk(c, w);
    assert c.log[ph.at - 1] == ph.prev;
    forall i: nat | d.popped <= i && i + 1 < |d.log| ensures Edge(d, i) {
      assert Edge(c, i);
      if i + 1 != ph.at {
        assert c.log[i] != ph.prev;
        if Broken(c, i + 1) {
          var x :| x in c.writers && c.writers[x].Swapped? && c.writers[x].at == i + 1;
          assert x in d.writers && d.writers[x] == c.writers[x];
        }
      }
    }
  }

  lemma JoinKeepsWriters(c: Chain, w: Writer)
    requires WellFormed(c) && CanJoin(c, w)
    ensures WritersOk(Join(c, w))
  {
    hide Edges;
    var d := Join(c, w);
    var ph := c.writers[w];
    assert WriterOk(c, w);
    assert InChain(c, c.log[ph.at - 1]);
    forall x | x in d.writers ensures WriterOk(d, x) {
      assert WriterOk(c, x) && c.writers[x].node != ph.node;
      ChainGrows(c, d, c.writers[x].node);
      if c.writers[x].Swapped? {
        assert c.log[c.writers[x].at - 1] != ph.prev;
      }
    }
  }

  lemma JoinPreserves(c: Chain, w: Writer)
    requires WellFormed(c) && CanJoin(c, w)
    ensures WellFormed(Join(c, w))
    ensures InChain(c, c.writers[w].prev) && c.writers[w].prev in c.link
  {
    JoinKeepsChain(c, w);
    JoinKeepsWriters(c, w);
  }

  /** A link that has been read out of the tail is the next node of the log, and moving the tail
      there leaves a node behind that nobody inside the queue refers to any more. */
  lemma AdvancePreserves(c: Chain, n: Node)
    requires WellFormed(c) && Load(c, c.tail) == Some(n)
    ensures c.popped + 1 < |c.log| && c.log[c.popped + 1] == n
    ensures WellFormed(Advance(c, n))
    ensures Unreferenced(Advance(c, n), c.tail)
  {
    var d := Advance(c, n);
    assert c.popped + 1 < |c.log|;
    assert Edge(c, c.popped);
    forall i: nat | d.popped <= i && i + 1 < |d.log| ensures Edge(d, i) {
      assert Edge(c, i);
      if Broken(c, i + 1) {
        var x :| x in c.writers && c.writers[x].Swapped? && c.writers[x].at == i + 1;
        assert d.writers[x] == c.writers[x];
      }
    }
    forall x | x in d.writers
      ensures WriterOk(d, x)
      ensures d.writers[x].node != c.tail && (d.writers[x].Swapped? ==> d.writers[x].prev != c.tail)
    {
      assert WriterOk(c, x) && InChain(c, c.tail);
      ChainGrows(c, d, c.writers[x].node);
    }
  }

  /** Neither end of the queue, nor any node of the chain, nor any enqueue in flight refers to the node. */
  ghost predicate Unreferenced(c: Chain, n: Node) {
    && n != c.head && n != c.tail
    && Outside(c, n)
    && forall w :: w in c.writers && c.writers[w].Swapped? ==> c.writers[w].prev != n
  }

  lemma DeadIsOutside(c: Chain, n: Node)
    requires WellFormed(c) && n !in c.link
    ensures Outside(c, n)
  {
    forall w | w in c.writers ensures c.writers[w].node != n {
      assert WriterOk(c, w);
    }
  }

  lemma OutsideIsUnreferenced(c: Chain, n: Node)
    requires WellFormed(c) && Outside(c, n)
    ensures Unreferenced(c, n)
  {
    assert InChain(c, c.head) && InChain(c, c.tail);
    forall w | w in c.writers && c.writers[w].Swapped? ensures c.writers[w].prev != n {
      assert WriterOk(c, w);
      assert InChain(c, c.log[c.writers[w].at - 1]);
    }
  }

  /** The owner of a node outside the queue may create, overwrite or destroy it. */
  lemma HeapChangePreserves(c: Chain, n: Node, link': map<Node, Option<Node>>)
    requires WellFormed(c) && Outside(c, n)
    requires forall m :: m != n ==> (m in c.link <==> m in link') && (m in c.link ==> link'[m] == c.link[m])
    ensures WellFormed(c.(link := link'))
  {
    var d := c.(link := link');
    assert forall m :: InChain(c, m) ==> m in c.link && m != n;
    ChainFrame(c, d);
    forall x | x in d.writers ensures WriterOk(d, x) {
      assert WriterOk(c, x) && c.writers[x].node != n;
      WriterFrame(c, d, x);
    }
  }

  // ---------- consequences ----------

  /** The tail has no successor exactly when it is the head or the edge behind it is broken. */
  lemma TailLink(c: Chain)
    requires WellFormed(c)
    ensures c.tail in c.link && c.head in c.link
    ensures c.tail == c.head <==> c.popped + 1 == |c.log|
    ensures Load(c, c.tail) == None <==> c.tail == c.head || Broken(c, c.popped + 1)
    ensures Load(c, c.tail).Some? ==> c.popped + 1 < |c.log| && Load(c, c.tail) == Some(c.log[c.popped + 1])
  {
    if c.popped + 1 < |c.log| {
      assert Edge(c, c.popped);
      if Broken(c, c.popped + 1) {
        var x :| x in c.writers && c.writers[x].Swapped? && c.writers[x].at == c.popped + 1;
        assert WriterOk(c, x);
      }
    }
  }

  /** Conservation over one step and over the rest of a run is conservation over the run. */
  lemma Splice<T>(p: seq<T>, i: seq<T>, o: seq<T>, p1: seq<T>, ins: seq<T>, outs: seq<T>, p2: seq<T>)
    requires p + i == o + p1 && p1 + ins == outs + p2
    ensures p + (i + ins) == (o + outs) + p2
  {
    assert p + (i + ins) == (p + i) + ins == o + (p1 + ins) == (o + outs) + p2;
  }
}
