/** One replica's request queue, shared by its worker thread and any number of producers. */
module RequestQueue {

  datatype Query = Query(id: nat, cost: real)

  function Sum(qs: seq<Query>): real {
    if qs == [] then 0.0 else qs[0].cost + Sum(qs[1..])
  }

  lemma {:induction false} SumConcat(a: seq<Query>, b: seq<Query>)
    ensures Sum(a + b) == Sum(a) + Sum(b)
  {
    if a == [] {
      assert a + b == b;
    } else {
      assert (a + b)[1..] == a[1..] + b;
      SumConcat(a[1..], b);
    }
  }

  lemma SumAppend(qs: seq<Query>, q: Query)
    ensures Sum(qs + [q]) == Sum(qs) + q.cost
  {
    SumConcat(qs, [q]);
    assert [q][1..] == [];
  }

  /** Who holds the mutex. */
  datatype Owner = Free | Producer(p: nat) | Worker

  /** Where a producer is inside addRequest. */
  datatype ProducerPc = Locked(q: Query) | Pushed(q: Query) | Charged(q: Query)

  /** Where the worker is in its loop: asleep, with the mutex to look at the front, with the query it took,
      through its start and execution, and with the mutex again to remove the front. */
  datatype WorkerPc =
    | Sleeping | Looking | Holding(top: Query) | Running(top: Query) | Done(top: Query)
    | Removing(top: Query) | Subtracted(top: Query, removed: Query) | Popped(top: Query, removed: Query)

  datatype State = State(
    owner: Owner,
    queue: seq<Query>,
    totalCost: real,
    producers: map<nat, ProducerPc>,
    worker: WorkerPc,
    arrived: seq<Query>,   // history: all queries pushed, in order
    executed: seq<Query>,  // history: all queries sent to the database
    finished: seq<Query>)  // history: all queries removed from the queue and reported

  datatype Action =
    | Lock(p: nat, q: Query) | Push(p: nat) | Charge(p: nat) | Unlock(p: nat)
    | Look | Peek | Start | Execute | LockAgain | Subtract | Pop | Report

  const INIT := State(Free, [], 0.0, map[], Sleeping, [], [], [])

  /** What the thread named by the action is able to do next; a lock waits until the mutex is free. */
  predicate Enabled(s: State, a: Action) {
    match a
    case Lock(p, _) => s.owner == Free && p !in s.producers
    case Push(p) => p in s.producers && s.producers[p].Locked?
    case Charge(p) => p in s.producers && s.producers[p].Pushed?
    case Unlock(p) => p in s.producers && s.producers[p].Charged?
    case Look => s.owner == Free && s.worker.Sleeping?
    case Peek => s.worker.Looking?
    case Start => s.worker.Holding?
    case Execute => s.worker.Running?
    case LockAgain => s.owner == Free && s.worker.Done?
    case Subtract => s.worker.Removing? && s.queue != []
    case Pop => s.worker.Subtracted? && s.queue != []
    case Report => s.worker.Popped?
  }

  function Step(s: State, a: Action): State
    requires Enabled(s, a)
  {
    match a
    case Lock(p, q) => s.(owner := Producer(p), producers := s.producers[p := Locked(q)])
    case Push(p) =>
      var q := s.producers[p].q;
      s.(queue := s.queue + [q], producers := s.producers[p := Pushed(q)], arrived := s.arrived + [q])
    case Charge(p) =>
      var q := s.producers[p].q;
      s.(totalCost := s.totalCost + q.cost, producers := s.producers[p := Charged(q)])
    case Unlock(p) => s.(owner := Free, producers := s.producers - {p})
    case Look => s.(owner := Worker, worker := Looking)
    case Peek => s.(owner := Free, worker := if s.queue == [] then Sleeping else Holding(s.queue[0]))
    case Start => s.(worker := Running(s.worker.top))
    case Execute => s.(worker := Done(s.worker.top), executed := s.executed + [s.worker.top])
    case LockAgain => s.(owner := Worker, worker := Removing(s.worker.top))
    case Subtract => s.(totalCost := s.totalCost - s.queue[0].cost, worker := Subtracted(s.worker.top, s.queue[0]))
    case Pop => s.(queue := s.queue[1..], worker := Popped(s.worker.top, s.worker.removed))
    case Report => s.(owner := Free, worker := Sleeping, finished := s.finished + [s.worker.removed])
  }

  /** The states along an interleaving, as far as every action is enabled. */
  ghost predicate IsRun(s: State, actions: seq<Action>, t: State)
    decreases |actions|
  {
    if actions == [] then s == t
    else Enabled(s, actions[0]) && IsRun(Step(s, actions[0]), actions[1..], t)
  }

  /** The mutex protects: only its owner is inside a critical section. */
  ghost predicate Exclusive(s: State) {
    && (forall p :: p in s.producers <==> s.owner == Producer(p))
    && (s.owner == Worker <==> s.worker.Looking? || s.worker.Removing? || s.worker.Subtracted? || s.worker.Popped?)
  }

  /** The running total, up to the query a critical section is working on. */
  ghost predicate CostTracks(s: State) {
    if s.owner.Producer? && s.owner.p in s.producers && s.producers[s.owner.p].Pushed? then
      s.totalCost + s.producers[s.owner.p].q.cost == Sum(s.queue)
    else if s.worker.Subtracted? then s.queue != [] && s.totalCost + s.queue[0].cost == Sum(s.queue)
    else s.totalCost == Sum(s.queue)
  }

  /** The worker's query is the front of the queue until it is popped, and no other query is removed. */
  ghost predicate FrontIsTop(s: State) {
    match s.worker
    case Sleeping => true
    case Looking => true
    case Subtracted(top, removed) => s.queue != [] && s.queue[0] == top == removed
    case Popped(top, removed) => top == removed
    case _ => s.queue != [] && s.queue[0] == s.worker.top
  }

  /** Arrivals split into what is finished, what is being removed and what waits; what was executed is what
      is finished and possibly the worker's query. */
  ghost predicate HistoriesAgree(s: State) {
    && s.arrived == s.finished + (if s.worker.Popped? then [s.worker.removed] else []) + s.queue
    && s.executed == s.finished +
         if s.worker.Done? || s.worker.Removing? || s.worker.Subtracted? || s.worker.Popped? then [s.worker.top] else []
  }

  ghost predicate Inv(s: State) {
    Exclusive(s) && CostTracks(s) && FrontIsTop(s) && HistoriesAgree(s)
  }

  lemma StepKeepsInv(s: State, a: Action)
    requires Inv(s) && Enabled(s, a)
    ensures Inv(Step(s, a))
  {
    var t := Step(s, a);
    match a
    case Push(p) => SumAppend(s.queue, s.producers[p].q);
    case _ =>
  }

  lemma {:induction false} RunKeepsInv(s: State, actions: seq<Action>, t: State)
    requires Inv(s) && IsRun(s, actions, t)
    ensures Inv(t)
    decreases |actions|
  {
    if actions != [] {
      StepKeepsInv(s, actions[0]);
      RunKeepsInv(Step(s, actions[0]), actions[1..], t);
    }
  }

  /** The queries that producers came with, in the order in which they got the mutex. */
  function Requests(actions: seq<Action>): seq<Query> {
    if actions == [] then []
    else (if actions[0].Lock? then [actions[0].q] else []) + Requests(actions[1..])
  }

  /** The query of a producer that has the mutex and has not queued it yet. */
  ghost function Incoming(s: State): seq<Query> {
    if s.owner.Producer? && s.owner.p in s.producers && s.producers[s.owner.p].Locked? then [s.producers[s.owner.p].q] else []
  }

  lemma StepArrives(s: State, a: Action)
    requires Inv(s) && Enabled(s, a)
    ensures var t := Step(s, a);
            t.arrived + Incoming(t) == s.arrived + Incoming(s) + if a.Lock? then [a.q] else []
  {
  }

  /** Nothing but the queries of the requests arrives, in that order and unchanged. */
  lemma {:induction false} RunArrives(s: State, actions: seq<Action>, t: State)
    requires Inv(s) && IsRun(s, actions, t)
    ensures t.arrived + Incoming(t) == s.arrived + Incoming(s) + Requests(actions)
    decreases |actions|
  {
    if actions != [] {
      var a, rest := actions[0], actions[1..];
      var now := if a.Lock? then [a.q] else [];
      StepArrives(s, a);
      StepKeepsInv(s, a);
      RunArrives(Step(s, a), rest, t);
      assert s.arrived + Incoming(s) + (now + Requests(rest)) == s.arrived + Incoming(s) + now + Requests(rest);
    }
  }

  /** In every interleaving of the producers with the worker: outside critical sections the running total
      is the cost of the queued queries; queries are executed and finished in order of arrival and each
      once; and only the query just executed is removed. */
  lemma EveryInterleaving(actions: seq<Action>, t: State)
    requires IsRun(INIT, actions, t)
    ensures t.owner == Free ==> t.totalCost == Sum(t.queue)
    ensures t.finished <= t.executed <= t.arrived && |t.executed| <= |t.finished| + 1
    ensures t.owner == Free ==> t.arrived == t.finished + t.queue
    ensures t.worker.Popped? || t.worker.Subtracted? ==>
      t.executed != [] && t.worker.removed == t.executed[|t.executed| - 1]
    ensures t.worker.Removing? || t.worker.Subtracted? ==> t.queue != []
  {
    RunKeepsInv(INIT, actions, t);
    assert t.arrived[..|t.executed|] == t.executed;
  }

  /** In every interleaving what arrives is what the producers came with, in the order in which they got the
      mutex; outside critical sections every request is either finished or queued, and the running total is
      the cost of all requests less that of the finished ones. */
  lemma RequestsAreServed(actions: seq<Action>, t: State)
    requires IsRun(INIT, actions, t)
    ensures t.arrived + Incoming(t) == Requests(actions)
    ensures t.owner == Free ==> t.finished + t.queue == Requests(actions)
    ensures t.owner == Free ==> t.totalCost + Sum(t.finished) == Sum(Requests(actions))
  {
    RunArrives(INIT, actions, t);
    assert INIT.arrived + Incoming(INIT) + Requests(actions) == Requests(actions);
    if t.owner == Free {
      EveryInterleaving(actions, t);
      assert t.arrived + [] == t.arrived;
      SumConcat(t.finished, t.queue);
    }
  }

  /** Whenever the mutex is free, any producer can queue any query. */
  lemma ProducerCanQueue(s: State, p: nat, q: Query)
    requires Inv(s) && s.owner == Free
    ensures var t := s.(queue := s.queue + [q], totalCost := s.totalCost + q.cost, arrived := s.arrived + [q]);
            IsRun(s, [Lock(p, q), Push(p), Charge(p), Unlock(p)], t)
  {
    var s1 := Step(s, Lock(p, q));
    var s2 := Step(s1, Push(p));
    var s3 := Step(s2, Charge(p));
    assert s3.producers - {p} == s.producers;
    RunOfFour(s, Lock(p, q), Push(p), Charge(p), Unlock(p));
  }

  lemma RunOfFour(s: State, a: Action, b: Action, c: Action, d: Action)
    requires Enabled(s, a) && Enabled(Step(s, a), b) && Enabled(Step(Step(s, a), b), c)
    requires Enabled(Step(Step(Step(s, a), b), c), d)
    ensures IsRun(s, [a, b, c, d], Step(Step(Step(Step(s, a), b), c), d))
  {
    assert [a, b, c, d][1..] == [b, c, d] && [b, c, d][1..] == [c, d] && [c, d][1..] == [d] && [d][1..] == [];
    assert IsRun(Step(Step(Step(s, a), b), c), [d], Step(Step(Step(Step(s, a), b), c), d));
    assert IsRun(Step(Step(s, a), b), [c, d], Step(Step(Step(Step(s, a), b), c), d));
  }

  /** The action of the thread that has to move on before anything else can, or of the worker. */
  function NextAction(s: State): Action {
    if s.owner.Producer? && s.owner.p in s.producers then
      match s.producers[s.owner.p]
      case Locked(_) => Push(s.owner.p)
      case Pushed(_) => Charge(s.owner.p)
      case Charged(_) => Unlock(s.owner.p)
    else
      match s.worker
      case Sleeping => Look
      case Looking => Peek
      case Holding(_) => Start
      case Running(_) => Execute
      case Done(_) => LockAgain
      case Removing(_) => Subtract
      case Subtracted(_, _) => Pop
      case Popped(_, _) => Report
  }

  /** The number of actions until everything that has arrived or is being added is finished, or more. */
  ghost function Remaining(s: State): nat {
    8 * |s.queue| +
    (match s.worker
     case Sleeping => 7 case Looking => 6 case Holding(_) => 5 case Running(_) => 4
     case Done(_) => 3 case Removing(_) => 2 case Subtracted(_, _) => 1 case Popped(_, _) => 8) +
    (if s.owner.Producer? && s.owner.p in s.producers then
       match s.producers[s.owner.p] case Locked(_) => 20 case Pushed(_) => 2 case Charged(_) => 1
     else 0)
  }

  ghost predicate Drained(s: State) {
    s.owner == Free && s.worker == Sleeping && s.queue == []
  }

  /** Nothing can block: unless all is done, the next action is enabled and brings the end nearer. */
  lemma NextActionProgresses(s: State)
    requires Inv(s) && !Drained(s)
    ensures Enabled(s, NextAction(s))
    ensures Remaining(Step(s, NextAction(s))) < Remaining(s) || Drained(Step(s, NextAction(s)))
    ensures s.arrived <= Step(s, NextAction(s)).arrived
  {
  }

  /** From every reachable state the threads can go on until every query that arrived is finished; then
      nothing is queued and the running total is zero. */
  lemma {:induction false} CanAlwaysDrain(s: State) returns (actions: seq<Action>, t: State)
    requires Inv(s)
    ensures IsRun(s, actions, t) && Inv(t)
    ensures s.arrived <= t.arrived == t.finished == t.executed && t.queue == [] && t.totalCost == 0.0
    decreases if Drained(s) then 0 else Remaining(s)
  {
    if Drained(s) {
      actions, t := [], s;
    } else {
      var a := NextAction(s);
      NextActionProgresses(s);
      StepKeepsInv(s, a);
      var rest;
      rest, t := CanAlwaysDrain(Step(s, a));
      actions := [a] + rest;
    }
  }
}
