/** A worker thread and the socket manager as their classes are written: the counter and the two lists
    are updated in place, and other threads may run between any two steps of a method. */
module WorkerThreads {
  import opened Wrappers
  import opened ConnectionPool

  /** The two threads that touch a worker's fields; closing a socket belongs to neither. */
  datatype Party = Acceptor | Worker

  predicate By(a: Action, w: Party) {
    match a
    case Count(_) => w.Acceptor?
    case Push => w.Acceptor?
    case Close(_) => false
    case _ => w.Worker?
  }

  predicate OthersOnly(run: seq<Action>, w: Party) {
    forall i :: 0 <= i < |run| ==> !By(run[i], w)
  }

  /** What a run of the others leaves alone from the point of view of w. */
  predicate Rely(p: Pool, p': Pool, w: Party) {
    && p.closed <= p'.closed
    && (w.Acceptor? ==> p'.appending == p.appending && p'.appended == p.appended)
    && (w.Acceptor? ==> |p.dropped| <= |p'.dropped| && p'.connections + |p'.dropped| == p.connections + |p.dropped|)
    && (w.Worker? ==>
          && p'.pc == p.pc && p'.sockets == p.sockets && p'.dropped == p.dropped
          && p'.updated == p.updated && p'.answers == p.answers
          && p.newSockets <= p'.newSockets
          && (p.pc.Adding? ==> p'.newSockets == p.newSockets))
  }

  lemma OneOtherSatisfiesRely(p: Pool, a: Action, w: Party)
    requires Inv(p) && !By(a, w)
    ensures Rely(p, Step(p, a), w)
  {
    hide Books;
  }

  lemma RelyTrans(p: Pool, q: Pool, r: Pool, w: Party)
    requires Rely(p, q, w) && Rely(q, r, w)
    ensures Rely(p, r, w)
  {
  }

  lemma {:induction false} OthersSatisfyRely(p: Pool, run: seq<Action>, w: Party)
    requires Inv(p) && OthersOnly(run, w)
    ensures Inv(Exec(p, run)) && Rely(p, Exec(p, run), w)
    decreases |run|
  {
    hide Inv, Rely, Step;
    if run == [] {
      Unmoved(p, w);
    } else {
      StepPreserves(p, run[0]);
      OneOtherSatisfiesRely(p, run[0], w);
      OthersSatisfyRely(Step(p, run[0]), run[1..], w);
      RelyTrans(p, Step(p, run[0]), Exec(p, run), w);
    }
  }

  lemma Unmoved(p: Pool, w: Party)
    ensures Rely(p, p, w)
  {
  }

  class WorkerThread {
    var connections: int
    var sockets: seq<Id>
    var newSockets: seq<Id>

    /** The sockets that are not open any more, whoever closed them. */
    var closed: set<Id>

    /** Where the worker stands. */
    var pc: Pc

    ghost var appending: Option<Id>
    ghost var appended: seq<Id>
    ghost var dropped: multiset<Id>
    ghost var updated: seq<Id>
    ghost var answers: seq<bool>

    ghost function Now(): Pool
      reads this
    {
      Pool(connections, newSockets, sockets, pc, appending, closed, appended, dropped, updated, answers)
    }

    constructor ()
      ensures Now() == Init() && Inv(Now())
    {
      connections, sockets, newSockets, closed := 0, [], [], {};
      pc, appending, appended, dropped, updated, answers := Resting, None, [], multiset{}, [], [];
    }

    /** The other threads execute any number of steps; when `alone` holds there are none that do.
        The body is the run without a step: callers know only the contract. */
    method Interfere(ghost w: Party, ghost alone: bool)
      requires Inv(Now())
      modifies this
      ensures exists run :: OthersOnly(run, w) && Now() == Exec(old(Now()), run)
      ensures alone ==> Now() == old(Now())
    {
      assert OthersOnly([], w) && Now() == Exec(old(Now()), []);
    }

    /** Interfere, with what the invariant makes of it. */
    method Yield(ghost w: Party, ghost alone: bool)
      requires Inv(Now())
      modifies this
      ensures Inv(Now()) && Rely(old(Now()), Now(), w)
      ensures alone ==> Now() == old(Now())
    {
      hide Inv, Rely, Exec;
      ghost var p := Now();
      Interfere(w, alone);
      ghost var run :| OthersOnly(run, w) && Now() == Exec(p, run);
      OthersSatisfyRely(p, run, w);
    }

    /** One round of the loop over the new sockets. */
    method TakeOver(i: nat, ghost alone: bool)
      requires Inv(Now()) && pc == Adding(i) && i < |newSockets|
      modifies this
      ensures Inv(Now()) && pc == Adding(i + 1) && newSockets == old(newSockets)
      ensures if old(newSockets[i] in closed) then sockets == old(sockets) else sockets == old(sockets) + [newSockets[i]]
      ensures alone ==> FinishTick(Now()) == FinishTick(old(Now()))
      ensures alone ==> Now() == Step(old(Now()), AddOne)
    {
      hide Books, Shape, FinishTick, Select;
      ghost var p := Now();
      var socket := newSockets[i];
      if socket in closed {
        connections := connections - 1;
        dropped := dropped + multiset{socket};
      } else {
        sockets := sockets + [socket];
      }
      pc := Adding(i + 1);
      Round(p);
      Yield(Worker, alone);
    }

    /** The others run until the lock on the new sockets is free.  The body is one such run: the worker, if it
        holds the lock, finishes its take-over. */
    method WaitForLock(ghost alone: bool)
      requires Inv(Now())
      modifies this
      ensures Inv(Now()) && Rely(old(Now()), Now(), Acceptor) && !pc.Adding?
      ensures alone && !old(pc.Adding?) ==> Now() == old(Now())
    {
      hide Books, Shape;
      Yield(Acceptor, alone);
      ghost var p := Now();
      if pc.Adding? {
        var i: nat := pc.i;
        AddingIndex(p);
        while i < |newSockets|
          invariant Inv(Now()) && pc == Adding(i) && i <= |newSockets| && Rely(p, Now(), Acceptor)
          decreases |newSockets| - i
        {
          TakeOver(i, true);
          i := i + 1;
        }
        Taken(Now());
        newSockets := [];
        pc := Removing(0, []);
      }
    }

    /** The acceptor appends a socket while the worker goes on and sockets close: the counter grows by one, less
        the sockets that the worker drops meanwhile. */
    method Append(socket: Id, ghost alone: bool)
      requires Inv(Now()) && appending.None?
      modifies this
      ensures Inv(Now()) && appending.None? && appended == old(appended) + [socket] && old(closed) <= closed
      ensures old(|dropped|) <= |dropped| && connections + |dropped| == old(connections + |dropped|) + 1
      ensures alone && !old(pc.Adding?) ==> Now() == Step(Step(old(Now()), Count(socket)), Push)
    {
      hide Inv;
      WaitForLock(alone);
      ghost var p := Now();
      connections := connections + 1;
      appending := Some(socket);
      StepPreserves(p, Count(socket));
      Yield(Acceptor, alone);
      p := Now();
      newSockets := newSockets + [socket];
      appending, appended := None, appended + [socket];
      StepPreserves(p, Push);
      Yield(Acceptor, alone);
    }

    /** Called with the lock free; nobody appends until every new socket has been taken over. */
    method AddNewSockets(ghost alone: bool)
      requires Inv(Now()) && Enabled(Now(), Begin)
      modifies this
      ensures Inv(Now()) && pc == Removing(0, []) && old(sockets) <= sockets
      ensures alone ==> FinishTick(Now()) == FinishTick(Step(old(Now()), Begin))
    {
      hide Books, FinishTick, Step, Select;
      ghost var p := Now();
      Begins(p);
      updated, answers := [], [];
      if newSockets == [] {
        pc := Removing(0, []);
        Yield(Worker, alone);
        return;
      }
      pc := Adding(0);
      ghost var target := FinishTick(Now());
      Yield(Worker, alone);
      var i: nat := 0;
      while i < |newSockets|
        invariant Inv(Now()) && pc == Adding(i) && i <= |newSockets| && old(sockets) <= sockets
        invariant alone ==> FinishTick(Now()) == target
        decreases |newSockets| - i
      {
        TakeOver(i, alone);
        i := i + 1;
      }
      p := Now();
      newSockets := [];
      pc := Removing(0, []);
      Taken(p);
      Yield(Worker, alone);
    }

    /** One round of the removal pass: update the socket and keep it if it is alive.  A socket whose update
        says that it is not alive has been closed already. */
    method Visit(i: nat, kept: seq<Id>, ghost alone: bool) returns (kept': seq<Id>)
      requires Inv(Now()) && pc == Removing(i, kept) && i < |sockets|
      modifies this
      ensures Inv(Now()) && pc == Removing(i + 1, kept') && sockets == old(sockets)
      ensures kept' == if old(sockets[i] in closed) then kept else kept + [sockets[i]]
      ensures alone ==> FinishTick(Now()) == FinishTick(old(Now()))
    {
      hide Books, Shape, FinishTick, Select;
      ghost var p := Now();
      var socket := sockets[i];
      kept' := kept;
      updated, answers := updated + [socket], answers + [socket !in closed];
      if socket in closed {
        connections := connections - 1;
        dropped := dropped + multiset{socket};
      } else {
        kept' := kept' + [socket];
      }
      pc := Removing(i + 1, kept');
      Round(p);
      Yield(Worker, alone);
    }

    /** A tick.  Whatever the others do meanwhile, update is called once on every socket the thread had and
        on those it has taken over, and the list keeps exactly those that answered that they are alive. */
    method Update(ghost alone: bool)
      requires Inv(Now()) && Enabled(Now(), Begin)
      modifies this
      ensures Inv(Now()) && pc.Resting?
      ensures old(sockets) <= updated && |answers| == |updated| && sockets == Select(updated, answers)
      ensures alone ==>
                && newSockets == [] && sockets == OpenOnes(old(sockets + newSockets), closed)
                && connections == |sockets|
    {
      hide Books, FinishTick, Step, OpenOnes, Select;
      UndisturbedTick(Now());
      Begins(Now());
      ghost var target := FinishTick(Step(Now(), Begin));
      AddNewSockets(alone);
      var i: nat, kept := 0, [];
      while i < |sockets|
        invariant Inv(Now()) && pc == Removing(i, kept) && i <= |sockets| && old(sockets) <= sockets
        invariant alone ==> FinishTick(Now()) == target
        decreases |sockets| - i
      {
        kept := Visit(i, kept, alone);
        i := i + 1;
      }
      ghost var p := Now();
      sockets := kept;
      pc := Resting;
      Swept(p);
      Yield(Worker, alone);
      AtRest(Now());
    }
  }

  // ---------- the ghost side of single steps ----------

  /** The next round of the worker. */
  lemma Round(p: Pool)
    requires Inv(p) && !p.pc.Resting?
    ensures Inv(Step(p, WorkerAction(p))) && FinishTick(p) == FinishTick(Step(p, WorkerAction(p)))
  {
    hide Books;
    StepPreserves(p, WorkerAction(p));
  }

  lemma Begins(p: Pool)
    requires Inv(p) && Enabled(p, Begin)
    ensures Inv(Step(p, Begin))
    ensures Step(p, Begin)
         == p.(pc := if p.newSockets == [] then Removing(0, []) else Adding(0), updated := [], answers := [])
  {
    StepPreserves(p, Begin);
  }

  lemma AddingIndex(p: Pool)
    requires Inv(p) && p.pc.Adding?
    ensures p.pc.i <= |p.newSockets|
  {
  }

  lemma Taken(p: Pool)
    requires Inv(p) && p.pc == Adding(|p.newSockets|)
    ensures var p' := p.(newSockets := [], pc := Removing(0, [])); Inv(p') && FinishTick(p') == FinishTick(p)
  {
    Round(p);
  }

  lemma Swept(p: Pool)
    requires Inv(p) && p.pc.Removing? && p.pc.i == |p.sockets|
    ensures var p' := p.(sockets := p.pc.kept, pc := Resting);
            Inv(p') && FinishTick(p') == FinishTick(p) && p'.updated == p.sockets
  {
    Round(p);
  }

  lemma AtRest(p: Pool)
    requires Inv(p) && p.pc.Resting?
    ensures FinishTick(p) == p && |p.answers| == |p.updated| && p.sockets == Select(p.updated, p.answers)
  {
  }

  lemma LoadIsNatural(p: Pool)
    requires Inv(p)
    ensures p.connections >= 0
  {
  }

  // ---------- the socket manager ----------

  class SocketManager {
    const threads: seq<WorkerThread>

    /** Every worker keeps its invariant, and there is one worker at least. */
    ghost predicate Valid()
      reads this, threads
    {
      && threads != []
      && (forall i, j :: 0 <= i < j < |threads| ==> threads[i] != threads[j])
      && (forall i :: 0 <= i < |threads| ==> Inv(threads[i].Now()))
    }

    ghost function Load(i: nat): nat
      requires Valid() && i < |threads|
      reads this, threads
    {
      LoadIsNatural(threads[i].Now());
      threads[i].connections
    }

    ghost function Loads(): (r: seq<nat>)
      requires Valid()
      reads this, threads
      ensures |r| == |threads| && forall i :: 0 <= i < |r| ==> r[i] == threads[i].connections
    {
      seq(|threads|, i requires 0 <= i < |threads| && Valid() reads this, threads => Load(i))
    }

    constructor (workers: seq<WorkerThread>)
      requires workers != [] && forall i, j :: 0 <= i < j < |workers| ==> workers[i] != workers[j]
      requires forall i :: 0 <= i < |workers| ==> workers[i].Now() == Init()
      ensures Valid() && threads == workers && Loads() == seq(|workers|, _ => 0)
    {
      threads := workers;
    }

    /** How many sockets each thread has dropped so far. */
    ghost function Drops(): (r: seq<nat>)
      reads this, threads
      ensures |r| == |threads| && forall i :: 0 <= i < |r| ==> r[i] == |threads[i].dropped|
    {
      seq(|threads|, i requires 0 <= i < |threads| reads this, threads => |threads[i].dropped|)
    }

    ghost predicate NoneAppending()
      reads this, threads
    {
      forall i :: 0 <= i < |threads| ==> threads[i].appending.None?
    }

    /** All workers run and sockets close, between two accesses of the acceptor: a load changes only by the
        sockets that its thread drops. */
    method Pause()
      requires Valid()
      modifies threads
      ensures Valid() && Steady(old(Loads()), old(Drops()), Loads(), Drops())
      ensures forall i :: 0 <= i < |threads| ==>
                threads[i].appending == old(threads[i].appending) && threads[i].appended == old(threads[i].appended)
    {
      hide Inv, Rely, Loads, Drops;
      var k := 0;
      while k < |threads|
        invariant 0 <= k <= |threads| && Valid()
        invariant forall i :: 0 <= i < k ==> Rely(old(threads[i].Now()), threads[i].Now(), Acceptor)
        invariant forall i :: k <= i < |threads| ==> threads[i].Now() == old(threads[i].Now())
      {
        threads[k].Yield(Acceptor, false);
        k := k + 1;
      }
      forall i | 0 <= i < |threads| ensures RelyMeans(old(threads[i].Now()), threads[i].Now()) {
        RelyGives(old(threads[i].Now()), threads[i].Now());
      }
    }

    /** One round of the search: the counters of thread i and of the best one so far are read one after the other. */
    method Compare(min: nat, i: nat, ghost loads: seq<nat>, ghost drops: seq<nat>) returns (better: bool)
      requires Valid() && min < i < |threads| && |loads| == |threads|
      requires Steady(loads, drops, Loads(), Drops())
      modifies threads
      ensures Valid() && Steady(loads, drops, Loads(), Drops())
      ensures Steady(old(Loads()), old(Drops()), Loads(), Drops())
      ensures forall j :: 0 <= j < |threads| ==>
                threads[j].appending == old(threads[j].appending) && threads[j].appended == old(threads[j].appended)
      ensures Drops() == drops ==> old(Drops()) == drops && (better <==> loads[i] < loads[min])
    {
      hide Inv, Valid, Loads, Drops, Steady;
      ghost var loads0, drops0 := Loads(), Drops();
      Pause();
      ghost var loads1, drops1 := Loads(), Drops();
      var candidate := threads[i].connections;
      Pause();
      var best := threads[min].connections;
      SteadyTrans(loads, drops, loads0, drops0, loads1, drops1);
      SteadyTrans(loads, drops, loads1, drops1, Loads(), Drops());
      SteadyTrans(loads0, drops0, loads1, drops1, Loads(), Drops());
      SteadyEnds(loads, drops, loads0, drops0, Loads(), Drops());
      SteadyEnds(loads, drops, loads1, drops1, Loads(), Drops());
      better := candidate < best;
    }

    /** The workers run while the counters are read.  Unless a socket is dropped meanwhile, the result is the first
        thread with the fewest connections. */
    method ThreadWithMinConnections() returns (min: nat)
      requires Valid()
      modifies threads
      ensures Valid() && min < |threads| && Steady(old(Loads()), old(Drops()), Loads(), Drops())
      ensures forall i :: 0 <= i < |threads| ==>
                threads[i].appending == old(threads[i].appending) && threads[i].appended == old(threads[i].appended)
      ensures Drops() == old(Drops()) ==> min == MinIndex(old(Loads()))
    {
      hide Inv, Loads, Drops, Steady;
      ghost var loads, drops := Loads(), Drops();
      Still(loads, drops);
      min := 0;
      var i := 1;
      while i < |threads|
        invariant min < i <= |threads| && Valid()
        invariant Steady(loads, drops, Loads(), Drops())
        invariant forall j :: 0 <= j < |threads| ==>
                    threads[j].appending == old(threads[j].appending) && threads[j].appended == old(threads[j].appended)
        invariant Drops() == drops ==> FirstMinOf(loads, min, i)
      {
        var better := Compare(min, i, loads, drops);
        if better {
          min := i;
        }
        i := i + 1;
      }
      if Drops() == drops {
        FirstMinimumIsUnique(loads, min);
      }
    }

    /** The new socket goes to the thread chosen for it, whose worker runs meanwhile. */
    method OnSocketOpen(socket: Id, index: nat, ghost alone: bool)
      requires Valid() && index < |threads| && threads[index].appending.None?
      modifies threads[index]
      ensures Valid() && threads[index].appending.None?
      ensures forall i :: 0 <= i < |threads| ==>
                && threads[i].appending == old(threads[i].appending)
                && threads[i].appended == old(threads[i].appended) + (if i == index then [socket] else [])
      ensures Steady(old(Loads())[index := old(Loads())[index] + 1], old(Drops()), Loads(), Drops())
      ensures alone && !old(threads[index].pc.Adding?) ==>
                && threads[index].newSockets == old(threads[index].newSockets) + [socket]
                && Loads() == old(Loads())[index := old(Loads())[index] + 1]
    {
      hide Inv;
      threads[index].Append(socket, alone);
    }

    /** An accept, with all workers running between any two of its accesses: the socket is appended to one thread.
        Unless a thread drops a socket meanwhile, that is the first thread with the fewest connections. */
    method Accept(socket: Id) returns (index: nat)
      requires Valid() && NoneAppending()
      modifies threads
      ensures Valid() && NoneAppending() && index < |threads|
      ensures forall i :: 0 <= i < |threads| ==>
                threads[i].appended == old(threads[i].appended) + (if i == index then [socket] else [])
      ensures Steady(old(Loads())[index := old(Loads())[index] + 1], old(Drops()), Loads(), Drops())
      ensures Drops() == old(Drops()) ==> Loads() == AcceptOne(old(Loads()))
    {
      hide Inv, Valid, MinIndex, AcceptOne, Loads, Drops, Steady;
      ghost var loads, drops := Loads(), Drops();
      index := ThreadWithMinConnections();
      ghost var loads0, drops0 := Loads(), Drops();
      OnSocketOpen(socket, index, false);
      ghost var loads1, drops1 := Loads(), Drops();
      Pause();
      AcceptIsSteady(loads, drops, loads0, drops0, loads1, drops1, Loads(), Drops(), index);
    }
  }

  // ---------- loads under interference ----------

  /** From the first loads to the second, every thread has lost exactly the sockets it has dropped since. */
  predicate Steady(loads: seq<nat>, drops: seq<nat>, loads': seq<nat>, drops': seq<nat>) {
    && |loads| == |drops| == |loads'| == |drops'|
    && forall i :: 0 <= i < |loads| ==> drops[i] <= drops'[i] && loads'[i] + drops'[i] == loads[i] + drops[i]
  }

  lemma Still(loads: seq<nat>, drops: seq<nat>)
    requires |loads| == |drops|
    ensures Steady(loads, drops, loads, drops)
  {
  }

  lemma SteadyTrans(a: seq<nat>, d: seq<nat>, a': seq<nat>, d': seq<nat>, a'': seq<nat>, d'': seq<nat>)
    requires Steady(a, d, a', d') && Steady(a', d', a'', d'')
    ensures Steady(a, d, a'', d'')
  {
  }

  /** If nothing has been dropped at the end, nothing was dropped before. */
  lemma SteadyEnds(a: seq<nat>, d: seq<nat>, a': seq<nat>, d': seq<nat>, a'': seq<nat>, d'': seq<nat>)
    requires Steady(a, d, a', d') && Steady(a', d', a'', d'')
    ensures d'' == d ==> d' == d && a' == a && a'' == a
  {
    if d'' == d {
      assert forall i :: 0 <= i < |d| ==> d[i] <= d'[i] <= d''[i];
    }
  }

  lemma SteadyOneMore(a: seq<nat>, d: seq<nat>, a': seq<nat>, d': seq<nat>, k: nat)
    requires Steady(a, d, a', d') && k < |a|
    ensures |a'| == |a| && Steady(a[k := a[k] + 1], d, a'[k := a'[k] + 1], d')
  {
  }

  /** An accept by thread k, in its three stretches. */
  lemma AcceptIsSteady(a: seq<nat>, d: seq<nat>, a0: seq<nat>, d0: seq<nat>, a1: seq<nat>, d1: seq<nat>,
                       a2: seq<nat>, d2: seq<nat>, k: nat)
    requires k < |a| == |a0| && Steady(a, d, a0, d0)
    requires Steady(a0[k := a0[k] + 1], d0, a1, d1) && Steady(a1, d1, a2, d2)
    requires d0 == d ==> k == MinIndex(a)
    ensures Steady(a[k := a[k] + 1], d, a2, d2)
    ensures d2 == d ==> a2 == AcceptOne(a)
  {
    hide MinIndex, Steady;
    var target, middle := a[k := a[k] + 1], a0[k := a0[k] + 1];
    SteadyOneMore(a, d, a0, d0, k);
    SteadyTrans(target, d, middle, d0, a1, d1);
    SteadyTrans(target, d, a1, d1, a2, d2);
    SteadyTrans(middle, d0, a1, d1, a2, d2);
    SteadyEnds(target, d, middle, d0, a2, d2);
  }

  /** m is the first position of the minimum among the first n loads. */
  predicate FirstMinOf(loads: seq<nat>, m: nat, n: nat)
    requires m < n <= |loads|
  {
    && (forall j :: 0 <= j < n ==> loads[m] <= loads[j])
    && (forall j :: 0 <= j < m ==> loads[m] < loads[j])
  }

  predicate RelyMeans(p: Pool, p': Pool) {
    && p'.appending == p.appending && p'.appended == p.appended
    && |p.dropped| <= |p'.dropped| && p'.connections + |p'.dropped| == p.connections + |p.dropped|
  }

  lemma RelyGives(p: Pool, p': Pool)
    requires Rely(p, p', Acceptor)
    ensures RelyMeans(p, p')
  {
  }
}
