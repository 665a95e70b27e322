/** A worker thread's sockets and their counter as a transition system: the acceptor appends new
    sockets, the worker takes them over and drops closed ones, and sockets close at any time.  The lock
    around the list of new sockets is held by the acceptor while `appending` is set and by the
    worker while it adds. */
module ConnectionPool {
  import opened Wrappers
  import Arithmetic

  type Id = nat

  datatype Pc =
    | Resting
    | Adding(i: nat)                    // inside add_new_sockets, at new socket i
    | Removing(i: nat, kept: seq<Id>)   // inside the removal pass, at socket i

  /** History: the sockets in the order of their appends, those dropped, and those whose update has been
      called in the current pass, with what each call answered. */
  datatype Pool = Pool(
    connections: int, newSockets: seq<Id>, sockets: seq<Id>, pc: Pc, appending: Option<Id>, closed: set<Id>,
    appended: seq<Id>, dropped: multiset<Id>, updated: seq<Id>, answers: seq<bool>)

  datatype Action =
    | Count(id: Id)     // append: lock and count
    | Push              // append: push and unlock
    | Begin             // the worker's tick: lock
    | AddOne            // one round of the loop over the new sockets, or its end
    | RemoveOne         // one round of the removal pass, or its end
    | Close(id: Id)

  function Init(): Pool {
    Pool(0, [], [], Resting, None, {}, [], multiset{}, [], [])
  }

  predicate Enabled(p: Pool, a: Action) {
    match a
    case Count(_) => p.appending.None? && !p.pc.Adding?
    case Push => p.appending.Some?
    case Begin => p.pc.Resting? && p.appending.None?
    case AddOne => p.pc.Adding? && p.pc.i <= |p.newSockets|
    case RemoveOne => p.pc.Removing? && p.pc.i <= |p.sockets|
    case Close(_) => true
  }

  function Step(p: Pool, a: Action): Pool {
    if !Enabled(p, a) then p else
    match a
    case Count(id) => p.(connections := p.connections + 1, appending := Some(id))
    case Push =>
      var id := p.appending.value;
      p.(newSockets := p.newSockets + [id], appending := None, appended := p.appended + [id])
    case Begin => p.(pc := if p.newSockets == [] then Removing(0, []) else Adding(0), updated := [], answers := [])
    case AddOne =>
      var i := p.pc.i;
      if i == |p.newSockets| then p.(newSockets := [], pc := Removing(0, []))
      else if p.newSockets[i] in p.closed
      then p.(connections := p.connections - 1, dropped := p.dropped + multiset{p.newSockets[i]}, pc := Adding(i + 1))
      else p.(sockets := p.sockets + [p.newSockets[i]], pc := Adding(i + 1))
    case RemoveOne =>
      var i, kept := p.pc.i, p.pc.kept;
      if i == |p.sockets| then p.(sockets := kept, pc := Resting)
      else
        var s := p.sockets[i];
        var p1 := p.(updated := p.updated + [s], answers := p.answers + [s !in p.closed]);
        if s in p.closed
        then p1.(connections := p.connections - 1, dropped := p.dropped + multiset{s}, pc := Removing(i + 1, kept))
        else p1.(pc := Removing(i + 1, kept + [s]))
    case Close(id) => p.(closed := p.closed + {id})
  }

  function Exec(p: Pool, run: seq<Action>): Pool
    decreases |run|
  {
    if run == [] then p else Exec(Step(p, run[0]), run[1..])
  }

  // ---------- invariant ----------

  /** The sockets the thread is responsible for: active ones without those already rejected in the current
      pass, then new ones without those already taken over. */
  function Current(p: Pool): seq<Id> {
    (if p.pc.Removing? && p.pc.i <= |p.sockets| then p.pc.kept + p.sockets[p.pc.i..] else p.sockets)
    + (if p.pc.Adding? && p.pc.i <= |p.newSockets| then p.newSockets[p.pc.i..] else p.newSockets)
  }

  /** a is b with some elements left out. */
  predicate Subsequence(a: seq<Id>, b: seq<Id>)
    decreases |b|
  {
    if a == [] then true
    else if b == [] then false
    else if a[|a| - 1] == b[|b| - 1] then Subsequence(a[..|a| - 1], b[..|b| - 1])
    else Subsequence(a, b[..|b| - 1])
  }

  /** The books agree with the lists. */
  ghost predicate Books(p: Pool) {
    && p.connections == |Current(p)| + (if p.appending.Some? then 1 else 0)
    && multiset(p.appended) == multiset(Current(p)) + p.dropped
    && Subsequence(Current(p), p.appended)
    && (forall id :: id in p.dropped ==> id in p.closed)
  }

  /** The elements of ids whose answer is true. */
  function Select(ids: seq<Id>, answers: seq<bool>): seq<Id>
    requires |ids| == |answers|
  {
    if ids == [] then []
    else
      var n := |ids| - 1;
      Select(ids[..n], answers[..n]) + (if answers[n] then [ids[n]] else [])
  }

  /** The loops stay inside their lists, and a pass keeps what it was told to keep. */
  predicate Shape(p: Pool) {
    && |p.answers| == |p.updated|
    && (p.pc.Resting? ==> p.sockets == Select(p.updated, p.answers))
    && (p.pc.Adding? ==> p.pc.i <= |p.newSockets| && p.appending.None? && p.updated == [])
    && (p.pc.Removing? ==>
          p.pc.i <= |p.sockets| && p.updated == p.sockets[..p.pc.i] && p.pc.kept == Select(p.updated, p.answers))
  }

  ghost predicate Inv(p: Pool) {
    Books(p) && Shape(p)
  }

  // ---------- subsequences ----------

  lemma {:induction false} WithoutLast(a: seq<Id>, b: seq<Id>)
    requires a != [] && Subsequence(a, b)
    ensures Subsequence(a[..|a| - 1], b)
    decreases |b|
  {
    var a', b' := a[..|a| - 1], b[..|b| - 1];
    if a[|a| - 1] == b[|b| - 1] {
      if a' != [] {
        WithoutLast(a', b');
      }
    } else {
      WithoutLast(a, b');
      if a' != [] {
        WithoutLast(a', b');
      }
    }
  }

  lemma {:induction false} WithoutOne(p: seq<Id>, x: Id, q: seq<Id>, b: seq<Id>)
    requires Subsequence(p + [x] + q, b)
    ensures Subsequence(p + q, b)
    decreases |b|
  {
    var a := p + [x] + q;
    if q == [] {
      assert a[..|a| - 1] == p == p + q;
      WithoutLast(a, b);
    } else {
      var q', b' := q[..|q| - 1], b[..|b| - 1];
      assert a[..|a| - 1] == p + [x] + q';
      assert (p + q)[..|p + q| - 1] == p + q';
      if a[|a| - 1] == b[|b| - 1] {
        WithoutOne(p, x, q', b');
      } else {
        WithoutOne(p, x, q, b');
      }
    }
  }

  lemma {:induction false} Reflexive(a: seq<Id>)
    ensures Subsequence(a, a)
  {
    if a != [] {
      Reflexive(a[..|a| - 1]);
    }
  }

  lemma AppendBoth(a: seq<Id>, b: seq<Id>, x: Id)
    requires Subsequence(a, b)
    ensures Subsequence(a + [x], b + [x])
  {
    assert (a + [x])[..|a|] == a && (b + [x])[..|b|] == b;
  }

  // ---------- preservation ----------

  /** One socket leaves, and everything else stays in order. */
  lemma DropKeepsBooks(p: Pool, p': Pool, front: seq<Id>, x: Id, back: seq<Id>)
    requires Books(p) && Current(p) == front + [x] + back && Current(p') == front + back
    requires p'.connections == p.connections - 1 && p'.dropped == p.dropped + multiset{x} && x in p.closed
    requires p'.appended == p.appended && p'.appending == p.appending && p'.closed == p.closed
    ensures Books(p')
  {
    hide Current, Subsequence;
    WithoutOne(front, x, back, p.appended);
    assert multiset(front + [x] + back) == multiset(front) + multiset{x} + multiset(back);
    assert multiset(front + back) == multiset(front) + multiset(back);
  }

  /** The list of responsibilities does not change. */
  lemma SameKeepsBooks(p: Pool, p': Pool)
    requires Books(p) && Current(p') == Current(p)
    requires p'.connections == p.connections && p'.dropped == p.dropped && p.closed <= p'.closed
    requires p'.appended == p.appended && p'.appending == p.appending
    ensures Books(p')
  {
    hide Current, Subsequence;
  }

  lemma CountKeepsBooks(p: Pool, id: Id)
    requires Books(p) && Enabled(p, Count(id))
    ensures Books(Step(p, Count(id)))
  {
    hide Subsequence;
    assert Current(Step(p, Count(id))) == Current(p);
  }

  lemma PushKeepsBooks(p: Pool)
    requires Inv(p) && p.appending.Some?
    ensures Books(Step(p, Push))
  {
    hide Subsequence, Current;
    var id := p.appending.value;
    PushIsLast(p);
    AppendBoth(Current(p), p.appended, id);
    assert multiset(Current(p) + [id]) == multiset(Current(p)) + multiset{id};
    assert multiset(p.appended + [id]) == multiset(p.appended) + multiset{id};
  }

  lemma PushIsLast(p: Pool)
    requires Shape(p) && p.appending.Some?
    ensures Current(Step(p, Push)) == Current(p) + [p.appending.value]
  {
  }

  lemma BeginKeepsBooks(p: Pool)
    requires Books(p) && Enabled(p, Begin)
    ensures Books(Step(p, Begin))
  {
    hide Books, Subsequence;
    assert [] + p.sockets[0..] == p.sockets && p.newSockets[0..] == p.newSockets;
    SameKeepsBooks(p, Step(p, Begin));
  }

  lemma AddKeepsBooks(p: Pool)
    requires Inv(p) && p.pc.Adding?
    ensures Books(Step(p, AddOne))
  {
    hide Books, Subsequence;
    var p' := Step(p, AddOne);
    var i := p.pc.i;
    if i == |p.newSockets| {
      assert p.newSockets[i..] == [] && [] + p.sockets[0..] == p.sockets;
      SameKeepsBooks(p, p');
    } else {
      var x, back := p.newSockets[i], p.newSockets[i + 1..];
      assert p.newSockets[i..] == [x] + back;
      assert p.sockets + ([x] + back) == (p.sockets + [x]) + back;
      if x in p.closed {
        DropKeepsBooks(p, p', p.sockets, x, back);
      } else {
        SameKeepsBooks(p, p');
      }
    }
  }

  lemma CurrentAtRemoval(p: Pool)
    requires Shape(p) && p.pc.Removing?
    ensures p.pc.i == |p.sockets| ==> Current(Step(p, RemoveOne)) == Current(p)
    ensures p.pc.i < |p.sockets| ==>
              var x, back := p.sockets[p.pc.i], p.sockets[p.pc.i + 1..] + p.newSockets;
              && Current(p) == p.pc.kept + [x] + back
              && Current(Step(p, RemoveOne)) == (if x in p.closed then p.pc.kept + back else Current(p))
  {
    var i, kept := p.pc.i, p.pc.kept;
    if i < |p.sockets| {
      assert p.sockets[i..] == [p.sockets[i]] + p.sockets[i + 1..];
    }
  }

  lemma RemoveKeepsBooks(p: Pool)
    requires Inv(p) && p.pc.Removing?
    ensures Books(Step(p, RemoveOne))
  {
    hide Current, Books, Subsequence;
    var p' := Step(p, RemoveOne);
    CurrentAtRemoval(p);
    var i := p.pc.i;
    if i < |p.sockets| && p.sockets[i] in p.closed {
      DropKeepsBooks(p, p', p.pc.kept, p.sockets[i], p.sockets[i + 1..] + p.newSockets);
    } else {
      SameKeepsBooks(p, p');
    }
  }

  lemma SelectSnoc(ids: seq<Id>, answers: seq<bool>, id: Id, answer: bool)
    requires |ids| == |answers|
    ensures Select(ids + [id], answers + [answer]) == Select(ids, answers) + (if answer then [id] else [])
  {
    assert (ids + [id])[..|ids|] == ids && (answers + [answer])[..|ids|] == answers;
  }

  lemma StepKeepsShape(p: Pool, a: Action)
    requires Shape(p)
    ensures Shape(Step(p, a))
  {
    if a.RemoveOne? && Enabled(p, a) && p.pc.i < |p.sockets| {
      var s := p.sockets[p.pc.i];
      assert p.sockets[..p.pc.i + 1] == p.sockets[..p.pc.i] + [s];
      SelectSnoc(p.updated, p.answers, s, s !in p.closed);
    }
  }

  lemma StepPreserves(p: Pool, a: Action)
    requires Inv(p)
    ensures Inv(Step(p, a))
  {
    hide Books, Subsequence;
    StepKeepsShape(p, a);
    if Enabled(p, a) {
      match a {
        case Count(id) => CountKeepsBooks(p, id);
        case Push => PushKeepsBooks(p);
        case Begin => BeginKeepsBooks(p);
        case AddOne => AddKeepsBooks(p);
        case RemoveOne => RemoveKeepsBooks(p);
        case Close(_) => SameKeepsBooks(p, Step(p, a));
      }
    }
  }

  lemma {:induction false} ExecPreserves(p: Pool, run: seq<Action>)
    requires Inv(p)
    ensures Inv(Exec(p, run))
    decreases |run|
  {
    hide Inv, Step;
    if run != [] {
      StepPreserves(p, run[0]);
      ExecPreserves(Step(p, run[0]), run[1..]);
    }
  }

  /** Connection accounting at every step of every interleaving of appends, ticks and closes: the counter
      is the number of sockets the thread is responsible for, plus the one being appended; every
      appended socket is either there or dropped, exactly once and in append order; and every
      dropped socket is closed. */
  lemma Accounting(run: seq<Action>)
    ensures var p := Exec(Init(), run);
            && p.connections == |Current(p)| + (if p.appending.Some? then 1 else 0)
            && multiset(p.appended) == multiset(Current(p)) + p.dropped
            && Subsequence(Current(p), p.appended)
            && (forall id :: id in p.dropped ==> id in p.closed)
  {
    ExecPreserves(Init(), run);
  }

  /** The counter in terms of the two lists: while new sockets are taken over, those already considered are not
      counted twice; in a removal pass the lists are ahead of it by the sockets already rejected in that pass;
      outside the worker's loops they agree. */
  lemma CounterIsListSizes(run: seq<Action>)
    ensures var p := Exec(Init(), run);
            var counted := p.connections - (if p.appending.Some? then 1 else 0);
            && (p.pc.Resting? ==> counted == |p.newSockets| + |p.sockets|)
            && (p.pc.Adding? ==> p.pc.i <= |p.newSockets| && counted == |p.newSockets| - p.pc.i + |p.sockets|)
            && (p.pc.Removing? ==> counted == |p.newSockets| + |p.sockets| - (|p.updated| - |p.pc.kept|))
  {
    ExecPreserves(Init(), run);
  }

  /** A pass calls update exactly once on every socket it starts with, in order; at its end the list holds
      exactly those that answered that they are alive, in the same order. */
  lemma PassUpdatesOnce(run: seq<Action>)
    ensures var p := Exec(Init(), run);
            && |p.answers| == |p.updated|
            && (p.pc.Removing? ==> p.pc.i <= |p.sockets| && p.updated == p.sockets[..p.pc.i])
            && (p.pc.Removing? && p.pc.i == |p.sockets| ==>
                  var done := Step(p, RemoveOne);
                  p.updated == p.sockets && done.pc.Resting? && done.sockets == Select(p.sockets, p.answers))
            && (p.pc.Resting? ==> p.sockets == Select(p.updated, p.answers))
  {
    hide Step;
    ExecPreserves(Init(), run);
    LastRound(Exec(Init(), run));
  }

  lemma LastRound(p: Pool)
    requires Shape(p)
    ensures p.pc.Removing? && p.pc.i == |p.sockets| ==>
              var done := Step(p, RemoveOne);
              p.updated == p.sockets && done.pc.Resting? && done.sockets == Select(p.sockets, p.answers)
  {
  }

  // ---------- one tick ----------

  function WorkerAction(p: Pool): Action {
    match p.pc
    case Resting => Begin
    case Adding(_) => AddOne
    case Removing(_, _) => RemoveOne
  }

  /** What is left of a tick when nobody else runs. */
  function FinishTick(p: Pool): (r: Pool)
    requires Shape(p)
    ensures Shape(r) && r.pc.Resting?
    decreases p.pc.Adding?, if p.pc.Adding? then |p.newSockets| - p.pc.i else if p.pc.Removing? then |p.sockets| - p.pc.i + 1 else 0
  {
    if p.pc.Resting? then p
    else
      StepKeepsShape(p, WorkerAction(p));
      FinishTick(Step(p, WorkerAction(p)))
  }

  function OpenOnes(ids: seq<Id>, closed: set<Id>): seq<Id> {
    if ids == [] then []
    else
      (if ids[0] in closed then [] else [ids[0]]) + OpenOnes(ids[1..], closed)
  }

  lemma {:induction false} OpenOnesConcat(a: seq<Id>, b: seq<Id>, closed: set<Id>)
    ensures OpenOnes(a + b, closed) == OpenOnes(a, closed) + OpenOnes(b, closed)
  {
    if a == [] {
      assert a + b == b;
    } else {
      assert (a + b)[1..] == a[1..] + b;
      OpenOnesConcat(a[1..], b, closed);
    }
  }

  lemma {:induction false} OpenOnesTwice(a: seq<Id>, closed: set<Id>)
    ensures OpenOnes(OpenOnes(a, closed), closed) == OpenOnes(a, closed)
  {
    if a != [] {
      OpenOnesTwice(a[1..], closed);
      OpenOnesConcat(if a[0] in closed then [] else [a[0]], OpenOnes(a[1..], closed), closed);
    }
  }

  lemma {:induction false} RemovalTick(p: Pool)
    requires Shape(p) && p.pc.Removing?
    ensures FinishTick(p).sockets == p.pc.kept + OpenOnes(p.sockets[p.pc.i..], p.closed)
    ensures FinishTick(p).newSockets == p.newSockets && FinishTick(p).closed == p.closed
    decreases |p.sockets| - p.pc.i
  {
    hide Shape;
    StepKeepsShape(p, RemoveOne);
    var p' := Step(p, RemoveOne);
    RemovalRound(p);
    if p'.pc.Removing? {
      RemovalTick(p');
    }
  }

  lemma RemovalRound(p: Pool)
    requires Shape(p) && p.pc.Removing?
    ensures var p' := Step(p, RemoveOne);
            && p'.newSockets == p.newSockets && p'.closed == p.closed
            && (p.pc.i < |p.sockets| ==>
                  && p'.pc.Removing? && p'.sockets == p.sockets && p'.pc.i == p.pc.i + 1
                  && p.pc.kept + OpenOnes(p.sockets[p.pc.i..], p.closed)
                     == p'.pc.kept + OpenOnes(p.sockets[p.pc.i + 1..], p.closed))
            && (p.pc.i == |p.sockets| ==> p'.pc.Resting? && p'.sockets == p.pc.kept + OpenOnes([], p.closed))
  {
    if p.pc.i < |p.sockets| {
      assert p.sockets[p.pc.i..][1..] == p.sockets[p.pc.i + 1..];
    }
  }

  lemma AddingRound(p: Pool)
    requires Shape(p) && p.pc.Adding?
    ensures var p' := Step(p, AddOne);
            && p'.closed == p.closed
            && (p.pc.i < |p.newSockets| ==>
                  && p'.pc == Adding(p.pc.i + 1) && p'.newSockets == p.newSockets
                  && p'.sockets + OpenOnes(p.newSockets[p.pc.i + 1..], p.closed)
                     == p.sockets + OpenOnes(p.newSockets[p.pc.i..], p.closed))
            && (p.pc.i == |p.newSockets| ==>
                  p'.pc == Removing(0, []) && p'.newSockets == []
                  && p'.sockets == p.sockets + OpenOnes(p.newSockets[p.pc.i..], p.closed))
  {
    if p.pc.i < |p.newSockets| {
      assert p.newSockets[p.pc.i..][1..] == p.newSockets[p.pc.i + 1..];
    }
  }

  lemma {:induction false} AddingTick(p: Pool)
    requires Shape(p) && p.pc.Adding?
    ensures FinishTick(p).sockets
         == OpenOnes(p.sockets + OpenOnes(p.newSockets[p.pc.i..], p.closed), p.closed)
    ensures FinishTick(p).newSockets == [] && FinishTick(p).closed == p.closed
    decreases |p.newSockets| - p.pc.i
  {
    hide Shape, OpenOnes;
    StepKeepsShape(p, AddOne);
    var p' := Step(p, AddOne);
    AddingRound(p);
    if p'.pc.Adding? {
      AddingTick(p');
    } else {
      RemovalTick(p');
      assert p'.sockets[0..] == p'.sockets;
    }
  }

  lemma {:induction false} FinishPreserves(p: Pool)
    requires Inv(p)
    ensures Inv(FinishTick(p)) && FinishTick(p).appending == p.appending
    ensures FinishTick(p).closed == p.closed
    decreases p.pc.Adding?, if p.pc.Adding? then |p.newSockets| - p.pc.i else if p.pc.Removing? then |p.sockets| - p.pc.i + 1 else 0
  {
    hide Books;
    if !p.pc.Resting? {
      StepPreserves(p, WorkerAction(p));
      FinishPreserves(Step(p, WorkerAction(p)));
    }
  }

  /** A tick that nobody disturbs takes over every new socket, keeps exactly the open ones of both lists in
      their order, and leaves the counter at their number. */
  lemma UndisturbedTick(p: Pool)
    requires Inv(p) && Enabled(p, Begin)
    ensures var r := FinishTick(Step(p, Begin));
            && r.newSockets == []
            && r.sockets == OpenOnes(p.sockets + p.newSockets, p.closed)
            && r.connections == |r.sockets| && r.closed == p.closed
  {
    hide Books, OpenOnes;
    StepPreserves(p, Begin);
    var p' := Step(p, Begin);
    if p.newSockets == [] {
      RemovalTick(p');
      assert p'.sockets[0..] == p.sockets + p.newSockets;
      assert [] + OpenOnes(p'.sockets[0..], p.closed) == OpenOnes(p.sockets + p.newSockets, p.closed);
    } else {
      AddingTick(p');
      assert p'.newSockets[0..] == p.newSockets;
      OpenOnesConcat(p.sockets, p.newSockets, p.closed);
      OpenOnesConcat(p.sockets, OpenOnes(p.newSockets, p.closed), p.closed);
      OpenOnesTwice(p.newSockets, p.closed);
    }
    FinishPreserves(p');
    CounterAtRest(FinishTick(p'));
  }

  lemma CounterAtRest(p: Pool)
    requires Inv(p) && p.pc.Resting? && p.appending.None?
    ensures p.connections == |p.sockets| + |p.newSockets|
  {
  }

  // ---------- load balance ----------

  /** The first thread with the fewest connections. */
  function MinIndex(loads: seq<nat>): (m: nat)
    requires loads != []
    ensures m < |loads|
    ensures forall i :: 0 <= i < |loads| ==> loads[m] <= loads[i]
    ensures forall i :: 0 <= i < m ==> loads[m] < loads[i]
  {
    if |loads| == 1 then 0
    else
      var m := MinIndex(loads[..|loads| - 1]);
      if loads[|loads| - 1] < loads[m] then |loads| - 1 else m
  }

  function AcceptOne(loads: seq<nat>): seq<nat>
    requires loads != []
  {
    var m := MinIndex(loads);
    loads[m := loads[m] + 1]
  }

  function AcceptMany(loads: seq<nat>, n: nat): (r: seq<nat>)
    requires loads != []
    ensures |r| == |loads|
  {
    if n == 0 then loads else AcceptOne(AcceptMany(loads, n - 1))
  }

  function RoundRobin(threads: nat, n: nat): (r: seq<nat>)
    requires threads > 0
    ensures |r| == threads
  {
    seq(threads, i => n / threads + (if i < n % threads then 1 else 0))
  }

  lemma NextDivision(n: nat, k: nat)
    requires k > 0
    ensures n % k + 1 < k ==> (n + 1) / k == n / k && (n + 1) % k == n % k + 1
    ensures n % k + 1 == k ==> (n + 1) / k == n / k + 1 && (n + 1) % k == 0
  {
    assert n + 1 == k * (n / k) + (n % k + 1);
    if n % k + 1 < k {
      Arithmetic.ModUnique(n + 1, k, n / k, n % k + 1);
    } else {
      assert k * (n / k + 1) == k * (n / k) + k;
      Arithmetic.ModUnique(n + 1, k, n / k + 1, 0);
    }
  }

  /** There is only one first minimum. */
  lemma FirstMinimumIsUnique(loads: seq<nat>, r: nat)
    requires r < |loads|
    requires forall i :: 0 <= i < |loads| ==> loads[r] <= loads[i]
    requires forall i :: 0 <= i < r ==> loads[r] < loads[i]
    ensures MinIndex(loads) == r
  {
    var m := MinIndex(loads);
    assert loads[m] == loads[r];
  }

  lemma NextRound(threads: nat, n: nat)
    requires threads > 0
    ensures MinIndex(RoundRobin(threads, n)) == n % threads
    ensures AcceptOne(RoundRobin(threads, n)) == RoundRobin(threads, n + 1)
  {
    FirstMinimumIsUnique(RoundRobin(threads, n), n % threads);
    NextDivision(n, threads);
  }

  /** Without disconnects the first-minimum choice is exactly round robin: after n accepts on any number of
      threads, thread i has n / threads connections, and one more if i < n mod threads. */
  lemma {:induction false} AcceptsAreRoundRobin(threads: nat, n: nat)
    requires threads > 0
    ensures AcceptMany(seq(threads, _ => 0), n) == RoundRobin(threads, n)
  {
    var zeros: seq<nat> := seq(threads, _ => 0);
    if n == 0 {
      assert zeros == RoundRobin(threads, 0);
    } else {
      hide RoundRobin, AcceptOne;
      AcceptsAreRoundRobin(threads, n - 1);
      NextRound(threads, n - 1);
    }
  }

  /** Hence the largest and the smallest load never differ by more than one. */
  lemma Balanced(threads: nat, n: nat)
    requires threads > 0
    ensures var loads := AcceptMany(seq(threads, _ => 0), n);
            forall i, j :: 0 <= i < threads && 0 <= j < threads ==> loads[i] <= loads[j] + 1
  {
    AcceptsAreRoundRobin(threads, n);
  }
}
