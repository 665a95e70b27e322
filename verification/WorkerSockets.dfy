/** The worker over real sockets: each socket is a writer of its own, and what the worker asks it is answered by that
    writer.  The connection pool, in which a socket is only open or closed, is shown to be an exact account of it. */
module WorkerSockets {
  import opened Wrappers
  import P = ConnectionPool
  import W = WriteQueue

  type Id = P.Id

  datatype System = System(pool: P.Pool, writers: map<Id, W.Writer>)

  /** Writes: what sessions and callbacks do to a socket at any time.  The worker asks a socket when it takes it over,
      and calls its update in the removal pass. */
  datatype Event =
    | Writes(id: Id, action: W.Action)
    | Worker(pool: P.Action)
    | TakeOne
    | UpdateOne(answers: nat -> W.Answer)

  function Init(): System {
    System(P.Init(), map[])
  }

  function WriterOf(s: System, id: Id): W.Writer {
    if id in s.writers then s.writers[id] else W.Init(false)
  }

  function IsOpen(w: W.Writer): bool {
    !w.closed && !w.closing
  }

  /** One round over the new sockets. */
  function Take(s: System): System {
    var p := s.pool;
    if !p.pc.Adding? || p.pc.i >= |p.newSockets| then s
    else
      var id := p.newSockets[p.pc.i];
      if !IsOpen(WriterOf(s, id))
      then s.(pool := p.(connections := p.connections - 1, dropped := p.dropped + multiset{id}, pc := P.Adding(p.pc.i + 1)))
      else s.(pool := p.(sockets := p.sockets + [id], pc := P.Adding(p.pc.i + 1)))
  }

  /** One round of the removal pass: a socket whose update says no is closed if it is open, and removed. */
  function Visit(s: System, answers: nat -> W.Answer): System {
    var p := s.pool;
    if !p.pc.Removing? || p.pc.i >= |p.sockets| then s
    else
      var id := p.sockets[p.pc.i];
      var (w, alive) := W.UpdateStep(WriterOf(s, id), answers);
      var p1 := p.(updated := p.updated + [id], answers := p.answers + [alive]);
      if alive
      then System(p1.(pc := P.Removing(p.pc.i + 1, p.pc.kept + [id])), s.writers[id := w])
      else System(p1.(connections := p.connections - 1, dropped := p.dropped + multiset{id}, pc := P.Removing(p.pc.i + 1, p.pc.kept)),
                  s.writers[id := if IsOpen(w) then W.Step(w, W.Close) else w])
  }

  /** The end of either loop asks no socket anything. */
  predicate AsksNobody(p: P.Pool, a: P.Action) {
    match a
    case AddOne => !p.pc.Adding? || p.pc.i == |p.newSockets|
    case RemoveOne => !p.pc.Removing? || p.pc.i == |p.sockets|
    case Close(_) => false
    case _ => true
  }

  function Step(s: System, e: Event): System {
    match e
    case Writes(id, action) =>
      if action.Update? then s
      else
        var w := W.Step(WriterOf(s, id), action);
        System(if action.Close? then P.Step(s.pool, P.Close(id)) else s.pool, s.writers[id := w])
    case Worker(a) => if AsksNobody(s.pool, a) then s.(pool := P.Step(s.pool, a)) else s
    case TakeOne => Take(s)
    case UpdateOne(answers) => Visit(s, answers)
  }

  function Exec(s: System, run: seq<Event>): System
    decreases |run|
  {
    if run == [] then s else Exec(Step(s, run[0]), run[1..])
  }

  /** The pool step that accounts for an event, if there is one. */
  function Account(s: System, e: Event): seq<P.Action> {
    match e
    case Writes(id, action) => if action.Close? then [P.Close(id)] else []
    case Worker(a) => if AsksNobody(s.pool, a) then [a] else []
    case TakeOne => if s.pool.pc.Adding? && s.pool.pc.i < |s.pool.newSockets| then [P.AddOne] else []
    case UpdateOne(_) => if s.pool.pc.Removing? && s.pool.pc.i < |s.pool.sockets| then [P.RemoveOne] else []
  }

  function Accounts(s: System, run: seq<Event>): seq<P.Action>
    decreases |run|
  {
    if run == [] then [] else Account(s, run[0]) + Accounts(Step(s, run[0]), run[1..])
  }

  /** A socket is in the pool's set exactly if its writer is closed; none is closing. */
  ghost predicate Inv(s: System) {
    forall id: Id :: !WriterOf(s, id).closing && (WriterOf(s, id).closed <==> id in s.pool.closed)
  }

  lemma OneStep(p: P.Pool, a: P.Action)
    ensures P.Exec(p, [a]) == P.Step(p, a) && P.Exec(p, []) == p
  {
    hide P.Step;
    assert [a][1..] == [];
    assert P.Exec(P.Step(p, a), []) == P.Step(p, a);
  }

  lemma ClosedGrows(p: P.Pool, a: P.Action)
    ensures P.Step(p, a).closed == if a.Close? then p.closed + {a.id} else p.closed
  {
  }

  /** Every event keeps the agreement, and is the pool's own step. */
  lemma StepAgrees(s: System, e: Event)
    requires Inv(s)
    ensures Inv(Step(s, e))
    ensures Step(s, e).pool == P.Exec(s.pool, Account(s, e))
  {
    hide W.Step, W.UpdateStep, P.Step, P.Exec;
    match e {
      case Writes(id, action) =>
        ClosedGrows(s.pool, P.Close(id));
        OneStep(s.pool, P.Close(id));
        WritesAgree(s, id, action);
      case Worker(a) =>
        ClosedGrows(s.pool, a);
        OneStep(s.pool, a);
        SameWriters(s, Step(s, e));
      case TakeOne =>
        OneStep(s.pool, P.AddOne);
        if s.pool.pc.Adding? && s.pool.pc.i < |s.pool.newSockets| {
          TakeIsAddOne(s);
        }
      case UpdateOne(answers) =>
        OneStep(s.pool, P.RemoveOne);
        if s.pool.pc.Removing? && s.pool.pc.i < |s.pool.sockets| {
          VisitIsRemoveOne(s, answers);
        }
    }
  }

  lemma WritesAgree(s: System, id: Id, action: W.Action)
    requires Inv(s)
    ensures Inv(Step(s, Writes(id, action)))
  {
    hide W.Step, W.UpdateStep, P.Step;
    W.StepClosesIff(WriterOf(s, id), action);
    ClosedGrows(s.pool, P.Close(id));
    var s' := Step(s, Writes(id, action));
    assert forall j: Id :: j != id ==> WriterOf(s', j) == WriterOf(s, j);
  }

  lemma TakeIsAddOne(s: System)
    requires Inv(s) && s.pool.pc.Adding? && s.pool.pc.i < |s.pool.newSockets|
    ensures Take(s) == s.(pool := P.Step(s.pool, P.AddOne)) && Inv(Take(s))
  {
    assert !WriterOf(s, s.pool.newSockets[s.pool.pc.i]).closing;
    SameWriters(s, Take(s));
  }

  lemma SameWriters(s: System, s': System)
    requires Inv(s) && s'.writers == s.writers && s'.pool.closed == s.pool.closed
    ensures Inv(s')
  {
    assert forall id: Id :: WriterOf(s', id) == WriterOf(s, id);
  }

  lemma OneWriter(s: System, s': System, id: Id, w: W.Writer)
    requires Inv(s) && s'.writers == s.writers[id := w] && s'.pool.closed == s.pool.closed
    requires w.closing == WriterOf(s, id).closing && w.closed == WriterOf(s, id).closed
    ensures Inv(s')
  {
    assert forall j: Id :: j != id ==> WriterOf(s', j) == WriterOf(s, j);
  }

  /** A round of the removal pass drops the socket exactly if its writer is closed. */
  lemma VisitIsRemoveOne(s: System, answers: nat -> W.Answer)
    requires Inv(s) && s.pool.pc.Removing? && s.pool.pc.i < |s.pool.sockets|
    ensures Visit(s, answers).pool == P.Step(s.pool, P.RemoveOne) && Inv(Visit(s, answers))
  {
    hide Inv, W.UpdateStep;
    var id := s.pool.sockets[s.pool.pc.i];
    UpdateKeepsOpen(s, id, answers);
    OneWriter(s, Visit(s, answers), id, W.UpdateStep(WriterOf(s, id), answers).0);
  }

  lemma UpdateKeepsOpen(s: System, id: Id, answers: nat -> W.Answer)
    requires Inv(s)
    ensures var w := WriterOf(s, id);
            var (w', alive) := W.UpdateStep(w, answers);
            && (alive <==> id !in s.pool.closed)
            && w'.closed == w.closed && w'.closing == w.closing && !w.closing && (w.closed <==> id in s.pool.closed)
  {
    hide W.DrainFrom;
    var w := WriterOf(s, id);
    W.DrainCloses(w, answers, 0);
  }

  // ---------- whole runs ----------

  lemma {:induction false} ExecAgrees(s: System, run: seq<Event>)
    requires Inv(s)
    ensures Inv(Exec(s, run)) && Exec(s, run).pool == P.Exec(s.pool, Accounts(s, run))
    decreases |run|
  {
    hide Inv, Step, P.Exec, Account;
    if run == [] {
      OneStep(s.pool, P.Push);
    } else {
      StepAgrees(s, run[0]);
      ExecAgrees(Step(s, run[0]), run[1..]);
      PoolConcat(s.pool, Account(s, run[0]), Accounts(Step(s, run[0]), run[1..]));
    }
  }

  lemma {:induction false} PoolConcat(p: P.Pool, a: seq<P.Action>, b: seq<P.Action>)
    ensures P.Exec(p, a + b) == P.Exec(P.Exec(p, a), b)
    decreases |a|
  {
    hide P.Step;
    if a == [] {
      assert a + b == b;
    } else {
      assert (a + b)[1..] == a[1..] + b;
      PoolConcat(P.Step(p, a[0]), a[1..], b);
    }
  }

  lemma InitAgrees()
    ensures Inv(Init())
  {
  }

  /** Over every interleaving of ticks, appends, writes, wakeups and closes, the system's books are those of a run of
      the pool, so everything proved of the pool holds of real sockets; and a socket's update answers no exactly
      if the socket is in the pool's set of closed ones. */
  lemma PoolAccounts(run: seq<Event>, id: Id, answers: nat -> W.Answer)
    ensures var s := Exec(Init(), run);
            && s.pool == P.Exec(P.Init(), Accounts(Init(), run))
            && (W.UpdateStep(WriterOf(s, id), answers).1 <==> id !in s.pool.closed)
  {
    hide Inv, Exec, P.Exec, W.UpdateStep, Accounts;
    InitAgrees();
    ExecAgrees(Init(), run);
    UpdateKeepsOpen(Exec(Init(), run), id, answers);
  }

  /** The session or a failed read has closed the socket somewhere in the run. */
  ghost predicate ClosedIn(run: seq<Event>, id: Id) {
    Writes(id, W.Close) in run
  }

  lemma ClosedByStep(s: System, e: Event)
    requires Inv(s)
    ensures Step(s, e).pool.closed == s.pool.closed + (if e.Writes? && e.action.Close? then {e.id} else {})
  {
    hide W.Step, W.UpdateStep, Inv;
    match e {
      case Writes(id, action) => ClosedGrows(s.pool, P.Close(id));
      case Worker(a) => ClosedGrows(s.pool, a);
      case TakeOne =>
      case UpdateOne(_) =>
    }
  }

  lemma {:induction false} ClosedExactly(s: System, run: seq<Event>, id: Id)
    requires Inv(s)
    ensures id in Exec(s, run).pool.closed <==> id in s.pool.closed || ClosedIn(run, id)
    decreases |run|
  {
    hide Inv, Step;
    if run != [] {
      StepAgrees(s, run[0]);
      ClosedByStep(s, run[0]);
      ClosedExactly(Step(s, run[0]), run[1..], id);
      assert run == [run[0]] + run[1..];
      assert ClosedIn(run, id) <==> run[0] == Writes(id, W.Close) || ClosedIn(run[1..], id);
    }
  }

  /** The worker never drops a connection of its own accord: every socket that it has dropped was closed by its
      session or a failed read, and one that was not is still among those it is responsible for, as often as it was
      appended, however idle it is and whatever the operating system answered. */
  lemma OpenSocketsStay(run: seq<Event>, id: Id)
    ensures var p := Exec(Init(), run).pool;
            && (id in p.dropped ==> ClosedIn(run, id))
            && (!ClosedIn(run, id) ==> multiset(P.Current(p))[id] == multiset(p.appended)[id])
  {
    hide Inv, Exec, P.Exec, Accounts, ClosedIn, P.Current, P.Subsequence;
    InitAgrees();
    ExecAgrees(Init(), run);
    ClosedExactly(Init(), run, id);
    P.Accounting(Accounts(Init(), run));
  }
}
