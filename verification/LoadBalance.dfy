/** The acceptor and all worker threads together: the choice of a thread, the two halves of the append to it, and
    the rounds of every worker's ticks interleave freely; no socket closes. */
module LoadBalance {
  import opened Wrappers
  import opened ConnectionPool

  /** `chosen` is the thread the acceptor has decided on, until its append is over; `counted` counts appends. */
  datatype Farm = Farm(pools: seq<Pool>, chosen: Option<nat>, counted: nat)

  datatype Move =
    | Choose             // get_socket_for_accept
    | CountSocket(id: Id)
    | PushSocket
    | Work(i: nat)       // the next round of worker i: begin a tick, take over, visit, or end a loop

  function Start(threads: nat): Farm {
    Farm(seq(threads, _ => ConnectionPool.Init()), None, 0)
  }

  function Loads(f: Farm): (r: seq<nat>)
    ensures |r| == |f.pools|
  {
    seq(|f.pools|, i requires 0 <= i < |f.pools| => if f.pools[i].connections >= 0 then f.pools[i].connections else 0)
  }

  /** The acceptor has decided and not counted yet, or it has counted and not pushed yet. */
  predicate Deciding(f: Farm) {
    f.chosen.Some? && f.chosen.value < |f.pools| && f.pools[f.chosen.value].appending.None?
  }

  predicate Pushing(f: Farm) {
    f.chosen.Some? && f.chosen.value < |f.pools| && f.pools[f.chosen.value].appending.Some?
  }

  function Update(f: Farm, i: nat, a: Action): Farm
    requires i < |f.pools|
  {
    f.(pools := f.pools[i := ConnectionPool.Step(f.pools[i], a)])
  }

  /** A move that is not possible leaves the farm as it is: the count waits for the lock. */
  function Next(f: Farm, m: Move): Farm {
    match m
    case Choose => if f.chosen.None? && f.pools != [] then f.(chosen := Some(MinIndex(Loads(f)))) else f
    case CountSocket(id) =>
      if Deciding(f) && Enabled(f.pools[f.chosen.value], Count(id))
      then Update(f, f.chosen.value, Count(id)).(counted := f.counted + 1)
      else f
    case PushSocket => if Pushing(f) then Update(f, f.chosen.value, Push).(chosen := None) else f
    case Work(i) => if i < |f.pools| then Update(f, i, WorkerAction(f.pools[i])) else f
  }

  function Run(f: Farm, moves: seq<Move>): Farm
    decreases |moves|
  {
    if moves == [] then f else Run(Next(f, moves[0]), moves[1..])
  }

  ghost predicate Good(p: Pool) {
    ConnectionPool.Inv(p) && p.closed == {}
  }

  ghost predicate Inv(f: Farm) {
    && f.pools != []
    && (forall i :: 0 <= i < |f.pools| ==> Good(f.pools[i]))
    && (forall i :: 0 <= i < |f.pools| && f.pools[i].appending.Some? ==> f.chosen == Some(i))
    && Loads(f) == RoundRobin(|f.pools|, f.counted)
    && (f.chosen.Some? ==> f.chosen.value < |f.pools|)
    && (Deciding(f) ==> f.chosen.value == f.counted % |f.pools|)
  }

  lemma GoodLoad(p: Pool)
    requires Good(p)
    ensures p.connections >= 0
  {
  }

  /** Without closed sockets a worker's round drops nobody and leaves the acceptor's append alone. */
  lemma WorkKeepsLoad(p: Pool)
    requires Good(p)
    ensures var p' := ConnectionPool.Step(p, WorkerAction(p));
            Good(p') && p'.connections == p.connections && p'.appending == p.appending
  {
    hide Books;
    StepPreserves(p, WorkerAction(p));
  }

  lemma WorkPreserves(f: Farm, i: nat)
    requires Inv(f) && i < |f.pools|
    ensures Inv(Next(f, Work(i)))
  {
    hide Good, RoundRobin, WorkerAction, ConnectionPool.Step;
    WorkKeepsLoad(f.pools[i]);
    assert Loads(Next(f, Work(i))) == Loads(f);
  }

  lemma ChoosePreserves(f: Farm)
    requires Inv(f)
    ensures Inv(Next(f, Choose))
  {
    hide Good, MinIndex, RoundRobin;
    NextRound(|f.pools|, f.counted);
    assert Loads(Next(f, Choose)) == Loads(f);
  }

  lemma CountOnLoad(p: Pool, id: Id)
    requires Good(p) && Enabled(p, Count(id))
    ensures var p' := ConnectionPool.Step(p, Count(id));
            Good(p') && p'.connections == p.connections + 1 && p'.appending == Some(id) && p.connections >= 0
  {
    hide Books;
    StepPreserves(p, Count(id));
    GoodLoad(p);
  }

  lemma CountPreserves(f: Farm, id: Id)
    requires Inv(f) && Deciding(f) && Enabled(f.pools[f.chosen.value], Count(id))
    ensures Inv(Next(f, CountSocket(id)))
  {
    hide Good, RoundRobin, MinIndex, Enabled, ConnectionPool.Step;
    var k := f.chosen.value;
    CountOnLoad(f.pools[k], id);
    NextRound(|f.pools|, f.counted);
    var loads := Loads(f);
    assert Loads(Next(f, CountSocket(id))) == loads[k := loads[k] + 1] == AcceptOne(loads);
  }

  lemma PushKeepsLoad(p: Pool)
    requires Good(p) && p.appending.Some?
    ensures var p' := ConnectionPool.Step(p, Push);
            Good(p') && p'.connections == p.connections && p'.appending.None?
  {
    hide Books;
    StepPreserves(p, Push);
  }

  lemma PushPreservesFarm(f: Farm)
    requires Inv(f) && Pushing(f)
    ensures Inv(Next(f, PushSocket))
  {
    hide Good, RoundRobin, ConnectionPool.Step;
    PushKeepsLoad(f.pools[f.chosen.value]);
    assert Loads(Next(f, PushSocket)) == Loads(f);
  }

  lemma {:induction false} RunPreserves(f: Farm, moves: seq<Move>)
    requires Inv(f)
    ensures Inv(Run(f, moves)) && |Run(f, moves).pools| == |f.pools|
    decreases |moves|
  {
    hide Inv;
    if moves != [] {
      NextPreserves(f, moves[0]);
      RunPreserves(Next(f, moves[0]), moves[1..]);
    }
  }

  lemma NextPreserves(f: Farm, m: Move)
    requires Inv(f)
    ensures Inv(Next(f, m)) && |Next(f, m).pools| == |f.pools|
  {
    hide Inv, Enabled, MinIndex;
    match m {
      case Choose => ChoosePreserves(f);
      case CountSocket(id) =>
        if Deciding(f) && Enabled(f.pools[f.chosen.value], Count(id)) {
          CountPreserves(f, id);
        }
      case PushSocket =>
        if Pushing(f) {
          PushPreservesFarm(f);
        }
      case Work(i) =>
        if i < |f.pools| {
          WorkPreserves(f, i);
        }
    }
  }

  lemma StartIsGood(threads: nat)
    requires threads > 0
    ensures Inv(Start(threads))
  {
    assert Loads(Start(threads)) == RoundRobin(threads, 0);
  }

  /** At every moment of every interleaving of accepts with the ticks of all workers: the loads are exactly round
      robin in the number of appends so far, and so no two of them differ by more than one. */
  lemma AlwaysBalanced(threads: nat, moves: seq<Move>)
    requires threads > 0
    ensures var f := Run(Start(threads), moves);
            && |f.pools| == threads
            && Loads(f) == RoundRobin(threads, f.counted)
            && forall i, j :: 0 <= i < threads && 0 <= j < threads ==> Loads(f)[i] <= Loads(f)[j] + 1
  {
    StartIsGood(threads);
    RunPreserves(Start(threads), moves);
  }
}
