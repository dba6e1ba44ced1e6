/** Greedy dispatch to replicas by estimated finish cost, and how far from even it can get. */
module Scheduling {
  import opened Reals

  /** A queued query with its cost on the replica it was sent to. */
  datatype Job = Job(cost: real, started: real)

  function Cost(jobs: seq<Job>): real {
    if jobs == [] then 0.0 else jobs[0].cost + Cost(jobs[1..])
  }

  function Abs(x: real): real {
    if x < 0.0 then -x else x
  }

  /** What the time spent on the front query does to an estimate: its cost is replaced by how far that
      cost is from the time spent. The start value of a query that has not run is whatever it was created with. */
  function Adjustment(jobs: seq<Job>, now: real): real {
    if jobs == [] then 0.0 else Abs(jobs[0].cost - (now - jobs[0].started)) - jobs[0].cost
  }

  /** The estimated finish cost of a new query. */
  function Estimate(jobs: seq<Job>, cost: real, now: real): real {
    Cost(jobs) + cost + Adjustment(jobs, now)
  }

  /** That is the new query, what waits behind the front query, and how far the front query's cost is from
      the time spent on it. */
  lemma EstimateParts(jobs: seq<Job>, cost: real, now: real)
    ensures jobs == [] ==> Estimate(jobs, cost, now) == cost
    ensures jobs != [] ==>
      var spent := now - jobs[0].started;
      && (spent <= jobs[0].cost ==> Estimate(jobs, cost, now) == cost + Cost(jobs[1..]) + (jobs[0].cost - spent))
      && (spent >= jobs[0].cost ==> Estimate(jobs, cost, now) == cost + Cost(jobs[1..]) + (spent - jobs[0].cost))
  {
  }

  function Estimates(loads: seq<seq<Job>>, costs: seq<real>, now: real): (es: seq<real>)
    requires |costs| == |loads|
    ensures |es| == |loads| && forall i :: 0 <= i < |es| ==> es[i] == Estimate(loads[i], costs[i], now)
  {
    seq(|loads|, i requires 0 <= i < |loads| => Estimate(loads[i], costs[i], now))
  }

  /** The first of the smallest values. */
  ghost predicate IsFirstLeast(es: seq<real>, id: nat) {
    id < |es| && (forall j :: 0 <= j < |es| ==> es[id] <= es[j]) && forall j :: 0 <= j < id ==> es[id] < es[j]
  }

  function FirstLeast(es: seq<real>): (id: nat)
    requires es != []
    ensures IsFirstLeast(es, id)
  {
    if |es| == 1 then 0
    else
      var k := FirstLeast(es[..|es| - 1]);
      if es[|es| - 1] < es[k] then |es| - 1 else k
  }

  lemma FirstLeastUnique(es: seq<real>, a: nat, b: nat)
    requires IsFirstLeast(es, a) && IsFirstLeast(es, b)
    ensures a == b
  {
    assert es[a] <= es[b] && es[b] <= es[a];
  }

  /** What can happen to the replicas: a query arrives with its cost on each of them and the start value it
      was created with, a worker starts its front query, or one finishes it. */
  datatype Event = Arrive(costs: seq<real>, now: real, unset: real) | Start(replica: nat, now: real) | Finish(replica: nat)

  ghost predicate Possible(loads: seq<seq<Job>>, e: Event) {
    match e
    case Arrive(costs, _, _) => |costs| == |loads| > 0
    case Start(i, _) => i < |loads| && loads[i] != []
    case Finish(i) => i < |loads| && loads[i] != []
  }

  function After(loads: seq<seq<Job>>, e: Event): (r: seq<seq<Job>>)
    requires Possible(loads, e)
    ensures |r| == |loads|
  {
    match e
    case Arrive(costs, now, unset) =>
      var id := FirstLeast(Estimates(loads, costs, now));
      loads[id := loads[id] + [Job(costs[id], unset)]]
    case Start(i, now) => loads[i := [loads[i][0].(started := now)] + loads[i][1..]]
    case Finish(i) => loads[i := loads[i][1..]]
  }

  lemma {:induction false} CostAppend(jobs: seq<Job>, j: Job)
    ensures Cost(jobs + [j]) == Cost(jobs) + j.cost
  {
    if jobs == [] {
      assert Cost([j]) == j.cost + Cost([j][1..]);
    } else {
      assert (jobs + [j])[1..] == jobs[1..] + [j];
      CostAppend(jobs[1..], j);
    }
  }

  ghost function TotalCost(loads: seq<seq<Job>>): real {
    if loads == [] then 0.0 else Cost(loads[0]) + TotalCost(loads[1..])
  }

  lemma {:induction false} TotalCostUpdate(loads: seq<seq<Job>>, i: nat, jobs: seq<Job>)
    requires i < |loads|
    ensures TotalCost(loads[i := jobs]) == TotalCost(loads) - Cost(loads[i]) + Cost(jobs)
  {
    if i == 0 {
      assert loads[0 := jobs][1..] == loads[1..];
    } else {
      assert loads[i := jobs][1..] == loads[1..][i - 1 := jobs];
      TotalCostUpdate(loads[1..], i - 1, jobs);
    }
  }

  /** `m` times `x`, as a repeated sum. */
  ghost function Scaled(m: nat, x: real): real {
    if m == 0 then 0.0 else x + Scaled(m - 1, x)
  }

  lemma {:induction false} ScaledProduct(m: nat, x: real)
    ensures Scaled(m, x) == m as real * x
  {
    if m > 0 {
      ScaledProduct(m - 1, x);
      assert m as real * x == x + (m - 1) as real * x;
    }
  }

  lemma {:induction false} ScaledSum(m: nat, x: real, y: real)
    ensures Scaled(m, x + y) == Scaled(m, x) + Scaled(m, y)
  {
    if m > 0 { ScaledSum(m - 1, x, y); }
  }

  lemma {:induction false} ScaledMonotone(m: nat, x: real, y: real)
    requires x <= y
    ensures Scaled(m, x) <= Scaled(m, y)
  {
    if m > 0 { ScaledMonotone(m - 1, x, y); }
  }

  /** A value below the cost of every replica is below their average. */
  lemma {:induction false} BelowAverage(loads: seq<seq<Job>>, x: real)
    requires forall i :: 0 <= i < |loads| ==> x <= Cost(loads[i])
    ensures Scaled(|loads|, x) <= TotalCost(loads)
  {
    if loads != [] { BelowAverage(loads[1..], x); }
  }

  /** A value below the cost of every other replica is below the average of the others. */
  lemma {:induction false} BelowOthers(loads: seq<seq<Job>>, id: nat, x: real)
    requires id < |loads| && forall i :: 0 <= i < |loads| && i != id ==> x <= Cost(loads[i])
    ensures Scaled(|loads| - 1, x) <= TotalCost(loads) - Cost(loads[id])
  {
    if id == 0 {
      BelowAverage(loads[1..], x);
    } else {
      assert forall i :: 0 <= i < |loads[1..]| ==> loads[1..][i] == loads[i + 1];
      BelowOthers(loads[1..], id - 1, x);
    }
  }

  ghost predicate CostsWithin(loads: seq<seq<Job>>, largest: real) {
    forall i, j :: 0 <= i < |loads| && 0 <= j < |loads[i]| ==> 0.0 <= loads[i][j].cost <= largest
  }

  /** No replica with a queue has its estimate adjusted further down than another, but for the spread. */
  ghost predicate SpreadWithin(loads: seq<seq<Job>>, now: real, spread: real) {
    forall i, j :: 0 <= i < |loads| && 0 <= j < |loads| && loads[i] != [] ==>
      Adjustment(loads[j], now) <= Adjustment(loads[i], now) + spread
  }

  /** A replica is at most one query and the spread above the average, counting all queries that ever arrived. */
  ghost predicate Fair(m: nat, cost: real, added: real, largest: real, spread: real) {
    m > 0 && Scaled(m, cost) <= added + Scaled(m - 1, largest) + Scaled(m, spread)
  }

  ghost predicate Balanced(loads: seq<seq<Job>>, added: real, largest: real, spread: real) {
    forall i :: 0 <= i < |loads| ==> Fair(|loads|, Cost(loads[i]), added, largest, spread)
  }

  ghost predicate CostsUpTo(costs: seq<real>, largest: real) {
    forall i :: 0 <= i < |costs| ==> 0.0 <= costs[i] <= largest
  }

  lemma {:induction false} CostNotNegative(jobs: seq<Job>)
    requires forall j :: 0 <= j < |jobs| ==> jobs[j].cost >= 0.0
    ensures Cost(jobs) >= 0.0
  {
    if jobs != [] { CostNotNegative(jobs[1..]); }
  }

  lemma PickIsBelowEach(loads: seq<seq<Job>>, costs: seq<real>, now: real, largest: real, spread: real, i: nat)
    requires |costs| == |loads| && CostsUpTo(costs, largest) && CostsWithin(loads, largest)
    requires spread >= 0.0 && SpreadWithin(loads, now, spread)
    requires i < |loads| && i != FirstLeast(Estimates(loads, costs, now))
    ensures var id := FirstLeast(Estimates(loads, costs, now));
            Cost(loads[id]) + costs[id] - largest - spread <= Cost(loads[i])
  {
    var es := Estimates(loads, costs, now);
    var id := FirstLeast(es);
    assert es[id] <= es[i];
    CostNotNegative(loads[i]);
    if loads[id] != [] { assert Adjustment(loads[i], now) <= Adjustment(loads[id], now) + spread; }
    BelowByEstimate(loads[id], loads[i], costs[id], costs[i], now, largest, spread);
  }

  /** With the query, the replica that gets it is at most a query and the spread above every other one. */
  lemma PickIsBelowOthers(loads: seq<seq<Job>>, costs: seq<real>, now: real, largest: real, spread: real)
    requires |costs| == |loads| > 0 && CostsUpTo(costs, largest) && CostsWithin(loads, largest)
    requires spread >= 0.0 && SpreadWithin(loads, now, spread)
    ensures var id := FirstLeast(Estimates(loads, costs, now));
            Scaled(|loads| - 1, Cost(loads[id]) + costs[id] - largest - spread) <= TotalCost(loads) - Cost(loads[id])
  {
    var id := FirstLeast(Estimates(loads, costs, now));
    var x := Cost(loads[id]) + costs[id] - largest - spread;
    forall i | 0 <= i < |loads| && i != id ensures x <= Cost(loads[i]) {
      PickIsBelowEach(loads, costs, now, largest, spread, i);
    }
    BelowOthers(loads, id, x);
  }

  lemma BelowByEstimate(picked: seq<Job>, other: seq<Job>, cost: real, otherCost: real, now: real, largest: real,
                        spread: real)
    requires Estimate(picked, cost, now) <= Estimate(other, otherCost, now)
    requires cost <= largest && otherCost <= largest && spread >= 0.0 && Cost(other) >= 0.0
    requires picked != [] ==> Adjustment(other, now) <= Adjustment(picked, now) + spread
    ensures Cost(picked) + cost - largest - spread <= Cost(other)
  {
  }

  lemma OneMoreIsFair(m: nat, load: real, cost: real, others: real, added: real, largest: real, spread: real)
    requires m > 0 && spread >= 0.0 && load + others <= added
    requires Scaled(m - 1, load + cost - largest - spread) <= others
    ensures Fair(m, load + cost, added + cost, largest, spread)
  {
    ScaledSum(m - 1, load + cost - largest - spread, largest + spread);
    ScaledSum(m - 1, largest, spread);
    assert load + cost - largest - spread + (largest + spread) == load + cost;
  }

  lemma LessIsFair(m: nat, less: real, cost: real, added: real, more: real, largest: real, spread: real)
    requires Fair(m, cost, added, largest, spread) && less <= cost && added <= more
    ensures Fair(m, less, more, largest, spread)
  {
    ScaledMonotone(m, less, cost);
  }

  ghost predicate RunInv(loads: seq<seq<Job>>, added: real, largest: real, spread: real) {
    CostsWithin(loads, largest) && Balanced(loads, added, largest, spread) && TotalCost(loads) <= added
  }

  lemma OneMoreKeepsBalance(loads: seq<seq<Job>>, id: nat, job: Job, added: real, largest: real, spread: real)
    requires RunInv(loads, added, largest, spread) && id < |loads| && 0.0 <= job.cost <= largest && spread >= 0.0
    requires Scaled(|loads| - 1, Cost(loads[id]) + job.cost - largest - spread) <= TotalCost(loads) - Cost(loads[id])
    ensures RunInv(loads[id := loads[id] + [job]], added + job.cost, largest, spread)
  {
    var (m, after) := (|loads|, loads[id := loads[id] + [job]]);
    CostAppend(loads[id], job);
    TotalCostUpdate(loads, id, loads[id] + [job]);
    OneMoreIsFair(m, Cost(loads[id]), job.cost, TotalCost(loads) - Cost(loads[id]), added, largest, spread);
    forall i | 0 <= i < m ensures Fair(m, Cost(after[i]), added + job.cost, largest, spread) {
      if i != id { LessIsFair(m, Cost(loads[i]), Cost(loads[i]), added, added + job.cost, largest, spread); }
    }
  }

  lemma ArriveKeepsBalance(loads: seq<seq<Job>>, costs: seq<real>, now: real, unset: real,
                           added: real, largest: real, spread: real)
    requires RunInv(loads, added, largest, spread) && |costs| == |loads| > 0 && CostsUpTo(costs, largest)
    requires spread >= 0.0 && SpreadWithin(loads, now, spread)
    ensures var id := FirstLeast(Estimates(loads, costs, now));
            RunInv(After(loads, Arrive(costs, now, unset)), added + costs[id], largest, spread)
  {
    PickIsBelowOthers(loads, costs, now, largest, spread);
    var id := FirstLeast(Estimates(loads, costs, now));
    OneMoreKeepsBalance(loads, id, Job(costs[id], unset), added, largest, spread);
  }

  /** Replacing a queue by one that costs no more. */
  lemma LessKeepsBalance(loads: seq<seq<Job>>, i: nat, jobs: seq<Job>, added: real, largest: real, spread: real)
    requires RunInv(loads, added, largest, spread) && i < |loads| && Cost(jobs) <= Cost(loads[i])
    requires forall j :: 0 <= j < |jobs| ==> 0.0 <= jobs[j].cost <= largest
    ensures RunInv(loads[i := jobs], added, largest, spread)
  {
    var after := loads[i := jobs];
    TotalCostUpdate(loads, i, jobs);
    forall k | 0 <= k < |after| ensures Fair(|after|, Cost(after[k]), added, largest, spread) {
      LessIsFair(|loads|, Cost(after[k]), Cost(loads[k]), added, added, largest, spread);
    }
  }

  lemma StartKeepsBalance(loads: seq<seq<Job>>, i: nat, now: real, added: real, largest: real, spread: real)
    requires RunInv(loads, added, largest, spread) && Possible(loads, Start(i, now))
    ensures RunInv(After(loads, Start(i, now)), added, largest, spread)
  {
    var jobs := [loads[i][0].(started := now)] + loads[i][1..];
    assert jobs[1..] == loads[i][1..];
    assert forall j :: 0 <= j < |jobs| ==> jobs[j].cost == loads[i][j].cost;
    LessKeepsBalance(loads, i, jobs, added, largest, spread);
  }

  lemma FinishKeepsBalance(loads: seq<seq<Job>>, i: nat, added: real, largest: real, spread: real)
    requires RunInv(loads, added, largest, spread) && Possible(loads, Finish(i))
    ensures RunInv(After(loads, Finish(i)), added, largest, spread)
  {
    assert forall j :: 0 <= j < |loads[i][1..]| ==> loads[i][1..][j] == loads[i][j + 1];
    LessKeepsBalance(loads, i, loads[i][1..], added, largest, spread);
  }

  /** A run of arrivals, starts and completions. A query may cost differently on each replica. */
  ghost predicate IsRun(loads: seq<seq<Job>>, events: seq<Event>, last: seq<seq<Job>>)
    decreases |events|
  {
    if events == [] then loads == last
    else
      var e := events[0];
      Possible(loads, e) && (e.Arrive? ==> forall i :: 0 <= i < |e.costs| ==> e.costs[i] >= 0.0) &&
      IsRun(After(loads, e), events[1..], last)
  }

  /** No query costs more than `largest` anywhere, and at every arrival the adjustments are within the spread. */
  ghost predicate Bounded(loads: seq<seq<Job>>, events: seq<Event>, largest: real, spread: real)
    decreases |events|
  {
    events != [] && Possible(loads, events[0]) ==>
      var e := events[0];
      && (e.Arrive? ==> (forall i :: 0 <= i < |e.costs| ==> e.costs[i] <= largest) && SpreadWithin(loads, e.now, spread))
      && Bounded(After(loads, e), events[1..], largest, spread)
  }

  /** What all queries that arrived cost on the replicas they were sent to. */
  ghost function Charged(loads: seq<seq<Job>>, events: seq<Event>): real
    decreases |events|
  {
    if events == [] || !Possible(loads, events[0]) then 0.0
    else
      var e := events[0];
      (if e.Arrive? then e.costs[FirstLeast(Estimates(loads, e.costs, e.now))] else 0.0)
      + Charged(After(loads, e), events[1..])
  }

  lemma {:induction false} RunStaysBalanced(loads: seq<seq<Job>>, events: seq<Event>, last: seq<seq<Job>>,
                                            before: real, largest: real, spread: real)
    requires IsRun(loads, events, last) && Bounded(loads, events, largest, spread) && spread >= 0.0
    requires RunInv(loads, before, largest, spread)
    ensures RunInv(last, before + Charged(loads, events), largest, spread) && |last| == |loads|
    decreases |events|
  {
    if events != [] {
      var e := events[0];
      var more := if e.Arrive? then e.costs[FirstLeast(Estimates(loads, e.costs, e.now))] else 0.0;
      match e {
        case Arrive(costs, now, unset) => ArriveKeepsBalance(loads, costs, now, unset, before, largest, spread);
        case Start(i, now) => StartKeepsBalance(loads, i, now, before, largest, spread);
        case Finish(i) => FinishKeepsBalance(loads, i, before, largest, spread);
      }
      RunStaysBalanced(After(loads, e), events[1..], last, before + more, largest, spread);
    }
  }

  ghost function Idle(m: nat): seq<seq<Job>> {
    seq(m, i => [])
  }

  lemma {:induction false} IdleCosts(m: nat)
    ensures TotalCost(Idle(m)) == 0.0
  {
    if m > 0 {
      assert Idle(m)[1..] == Idle(m - 1);
      IdleCosts(m - 1);
    }
  }

  lemma DivideBound(r: real, load: real, added: real, largest: real, spread: real)
    requires r > 0.0 && r * load <= added + (r * largest - largest) + r * spread
    ensures load <= added / r + largest - largest / r + spread
  {
    var (a, l) := (added / r, largest / r);
    assert r * a == added && r * l == largest;
    var rest := largest - l + spread;
    assert r * (a + rest) == r * a + r * rest;
    assert r * rest == r * largest - r * l + r * spread;
    if load > a + rest { Strict(r, a + rest, load); }
  }

  lemma FairAverage(m: nat, load: real, added: real, largest: real, spread: real)
    requires Fair(m, load, added, largest, spread)
    ensures load <= added / m as real + largest - largest / m as real + spread
  {
    ScaledProduct(m, load);
    ScaledProduct(m, largest);
    ScaledProduct(m, spread);
    DivideBound(m as real, load, added, largest, spread);
  }

  lemma IdleIsFair(m: nat, largest: real, spread: real)
    requires m > 0 && largest >= 0.0 && spread >= 0.0
    ensures Fair(m, 0.0, 0.0, largest, spread)
  {
    ScaledMonotone(m, 0.0, spread);
    ScaledMonotone(m - 1, 0.0, largest);
    ScaledSum(m - 1, 0.0, 0.0);
  }

  /** From idle replicas, over any run of arrivals, starts and completions, no replica's queued cost exceeds
      an even share of all the cost that was charged by more than the largest query less its own even share,
      plus the spread of the adjustments. */
  lemma GreedyBound(m: nat, events: seq<Event>, last: seq<seq<Job>>, largest: real, spread: real, i: nat)
    requires m > 0 && i < m && largest >= 0.0 && spread >= 0.0
    requires IsRun(Idle(m), events, last) && Bounded(Idle(m), events, largest, spread)
    ensures i < |last| && Cost(last[i]) <= Charged(Idle(m), events) / m as real + largest - largest / m as real + spread
  {
    IdleCosts(m);
    IdleIsFair(m, largest, spread);
    RunStaysBalanced(Idle(m), events, last, 0.0, largest, spread);
    FairAverage(m, Cost(last[i]), Charged(Idle(m), events), largest, spread);
  }

  /** What the queries would cost if each ran where it is cheapest. */
  function Cheapest(events: seq<Event>): real {
    if events == [] then 0.0
    else
      (if events[0].Arrive? && events[0].costs != [] then events[0].costs[FirstLeast(events[0].costs)] else 0.0)
      + Cheapest(events[1..])
  }

  /** A replica for every query that arrives. */
  ghost predicate IsChoice(events: seq<Event>, choice: seq<nat>) {
    |choice| == |events| && forall k :: 0 <= k < |events| && events[k].Arrive? ==> choice[k] < |events[k].costs|
  }

  /** What they cost if the k-th event's query runs on the replica `choice[k]`. */
  ghost function Assigned(events: seq<Event>, choice: seq<nat>): real
    requires IsChoice(events, choice)
  {
    if events == [] then 0.0
    else (if events[0].Arrive? then events[0].costs[choice[0]] else 0.0) + Assigned(events[1..], choice[1..])
  }

  /** No assignment of the queries to the replicas costs less altogether. */
  lemma {:induction false} CheapestIsLeast(events: seq<Event>, choice: seq<nat>)
    requires IsChoice(events, choice)
    ensures Cheapest(events) <= Assigned(events, choice)
  {
    if events != [] {
      assert forall k :: 0 <= k < |events[1..]| ==> events[1..][k] == events[k + 1] && choice[1..][k] == choice[k + 1];
      CheapestIsLeast(events[1..], choice[1..]);
    }
  }

  lemma ChoiceCons(events: seq<Event>, id: nat, rest: seq<nat>)
    requires events != [] && IsChoice(events[1..], rest) && (events[0].Arrive? ==> id < |events[0].costs|)
    ensures IsChoice(events, [id] + rest)
    ensures Assigned(events, [id] + rest) == (if events[0].Arrive? then events[0].costs[id] else 0.0) + Assigned(events[1..], rest)
  {
    var choice := [id] + rest;
    assert choice[1..] == rest;
    forall k | 0 <= k < |events| && events[k].Arrive? ensures choice[k] < |events[k].costs| {
      if k > 0 { assert events[1..][k - 1] == events[k]; }
    }
  }

  /** Some assignment costs no more than that. */
  lemma {:induction false} CheapestAttained(events: seq<Event>) returns (choice: seq<nat>)
    requires forall k :: 0 <= k < |events| && events[k].Arrive? ==> events[k].costs != []
    ensures IsChoice(events, choice) && Assigned(events, choice) == Cheapest(events)
  {
    choice := [];
    if events != [] {
      assert forall k :: 0 <= k < |events[1..]| ==> events[1..][k] == events[k + 1];
      var rest := CheapestAttained(events[1..]);
      var id := if events[0].Arrive? then FirstLeast(events[0].costs) else 0;
      ChoiceCons(events, id, rest);
      choice := [id] + rest;
    }
  }

  /** What a run is charged with is what its own assignment costs. */
  lemma {:induction false} ChargedIsAssigned(loads: seq<seq<Job>>, events: seq<Event>, last: seq<seq<Job>>)
    returns (choice: seq<nat>)
    requires IsRun(loads, events, last)
    ensures IsChoice(events, choice) && Assigned(events, choice) == Charged(loads, events)
    decreases |events|
  {
    choice := [];
    if events != [] {
      var e := events[0];
      var rest := ChargedIsAssigned(After(loads, e), events[1..], last);
      var id := if e.Arrive? then FirstLeast(Estimates(loads, e.costs, e.now)) else 0;
      ChoiceCons(events, id, rest);
      choice := [id] + rest;
    }
  }

  /** The costs of one query differ by at most a factor of two. */
  ghost predicate WithinTwo(costs: seq<real>) {
    forall i, j :: 0 <= i < |costs| && 0 <= j < |costs| ==> costs[i] <= 2.0 * costs[j]
  }

  /** The cost a query is sent to a replica with: the plan's, reduced by what is loaded there. */
  function FinalCost(cost: real, multiplier: real): real {
    var final := cost * multiplier;
    (if final < 0.0 then 20000.0 else final) / 1000.0
  }

  /** As the multipliers lie between one half and one, a plan of one cost has such costs on all replicas. */
  lemma MultipliersWithinTwo(cost: real, multipliers: seq<real>)
    requires forall i :: 0 <= i < |multipliers| ==> 0.5 <= multipliers[i] <= 1.0
    ensures var costs := seq(|multipliers|, i requires 0 <= i < |multipliers| => FinalCost(cost, multipliers[i]));
            WithinTwo(costs) && forall i :: 0 <= i < |costs| ==> costs[i] >= 0.0
  {
    forall i, j | 0 <= i < |multipliers| && 0 <= j < |multipliers|
      ensures 0.0 <= FinalCost(cost, multipliers[i]) <= 2.0 * FinalCost(cost, multipliers[j])
    {
      FinalCostsWithinTwo(cost, multipliers[i], multipliers[j]);
    }
  }

  lemma FinalCostsWithinTwo(cost: real, x: real, y: real)
    requires 0.5 <= x <= 1.0 && 0.5 <= y <= 1.0
    ensures 0.0 <= FinalCost(cost, x) <= 2.0 * FinalCost(cost, y)
    ensures if cost >= 0.0 then 1000.0 * FinalCost(cost, x) == cost * x else FinalCost(cost, x) == 20.0
  {
    if cost >= 0.0 {
      Weighted(cost, 0.0, x);
      Weighted(cost, 0.0, y);
      Weighted(cost, x, 2.0 * y);
      assert cost * (2.0 * y) == 2.0 * (cost * y);
    } else {
      Strict(-cost, 0.0, x);
      Strict(-cost, 0.0, y);
      assert -cost * x == -(cost * x) && -cost * y == -(cost * y);
    }
  }

  lemma {:induction false} ChargedWithinTwo(loads: seq<seq<Job>>, events: seq<Event>, last: seq<seq<Job>>)
    requires IsRun(loads, events, last) && forall k :: 0 <= k < |events| && events[k].Arrive? ==> WithinTwo(events[k].costs)
    ensures Charged(loads, events) <= 2.0 * Cheapest(events)
    decreases |events|
  {
    if events != [] {
      assert forall k :: 0 <= k < |events[1..]| ==> events[1..][k] == events[k + 1];
      ChargedWithinTwo(After(loads, events[0]), events[1..], last);
    }
  }

  /** When the costs of each query differ by at most a factor of two, no queue exceeds twice an even share of
      what any assignment costs by more than the largest query and the spread. */
  lemma GreedyWithinTwo(m: nat, events: seq<Event>, last: seq<seq<Job>>, largest: real, spread: real, i: nat,
                        choice: seq<nat>)
    requires m > 0 && i < m && largest >= 0.0 && spread >= 0.0
    requires IsRun(Idle(m), events, last) && Bounded(Idle(m), events, largest, spread)
    requires forall k :: 0 <= k < |events| && events[k].Arrive? ==> WithinTwo(events[k].costs)
    requires IsChoice(events, choice)
    ensures i < |last|
    ensures Cost(last[i]) <= 2.0 * (Assigned(events, choice) / m as real) + largest - largest / m as real + spread
  {
    GreedyBound(m, events, last, largest, spread, i);
    ChargedWithinTwo(Idle(m), events, last);
    CheapestIsLeast(events, choice);
    TwiceTheShare(Charged(Idle(m), events), Assigned(events, choice), m as real);
  }

  lemma TwiceTheShare(charged: real, planned: real, r: real)
    requires r > 0.0 && charged <= 2.0 * planned
    ensures charged / r <= 2.0 * (planned / r)
  {
    var share := planned / r;
    assert r * share == planned;
    assert r * (2.0 * share) == 2.0 * (r * share);
    QuotientAtMost(charged, r, 2.0 * share);
  }

  function Max(x: real, y: real): real {
    if x < y then y else x
  }

  lemma {:induction false} AdjustmentsBounded(loads: seq<seq<Job>>, now: real) returns (b: real)
    ensures b >= 0.0 && forall i :: 0 <= i < |loads| ==> -b <= Adjustment(loads[i], now) <= b
  {
    if loads == [] {
      b := 0.0;
    } else {
      var c := AdjustmentsBounded(loads[1..], now);
      b := Max(c, Abs(Adjustment(loads[0], now)));
      forall i | 0 <= i < |loads| ensures -b <= Adjustment(loads[i], now) <= b {
        if i > 0 { assert loads[i] == loads[1..][i - 1]; }
      }
    }
  }

  lemma {:induction false} BoundedMonotone(loads: seq<seq<Job>>, events: seq<Event>, l1: real, s1: real, l2: real,
                                           s2: real)
    requires Bounded(loads, events, l1, s1) && l1 <= l2 && s1 <= s2
    ensures Bounded(loads, events, l2, s2)
    decreases |events|
  {
    if events != [] && Possible(loads, events[0]) { BoundedMonotone(After(loads, events[0]), events[1..], l1, s1, l2, s2); }
  }

  lemma {:induction false} CostsBounded(costs: seq<real>) returns (b: real)
    ensures b >= 0.0 && forall i :: 0 <= i < |costs| ==> costs[i] <= b
  {
    if costs == [] {
      b := 0.0;
    } else {
      var c := CostsBounded(costs[1..]);
      b := Max(c, costs[0]);
      assert forall i :: 0 < i < |costs| ==> costs[i] == costs[1..][i - 1];
    }
  }

  /** Every run has such bounds, so the result above excludes none. */
  lemma {:induction false} EveryRunBounded(loads: seq<seq<Job>>, events: seq<Event>, last: seq<seq<Job>>)
    returns (largest: real, spread: real)
    requires IsRun(loads, events, last)
    ensures largest >= 0.0 && spread >= 0.0 && Bounded(loads, events, largest, spread)
    decreases |events|
  {
    largest, spread := 0.0, 0.0;
    if events != [] {
      var e := events[0];
      var l, s := EveryRunBounded(After(loads, e), events[1..], last);
      largest, spread := l, s;
      if e.Arrive? {
        var b := AdjustmentsBounded(loads, e.now);
        var c := CostsBounded(e.costs);
        largest, spread := Max(l, c), Max(s, b + b);
      }
      BoundedMonotone(After(loads, e), events[1..], l, s, largest, spread);
    }
  }

  /** An estimate counts the front query in full exactly when no time, or twice its cost, counts as spent on it. */
  lemma AdjustmentZeroIff(jobs: seq<Job>, now: real)
    requires jobs != [] ==> jobs[0].cost >= 0.0
    ensures Adjustment(jobs, now) == 0.0
       <==> jobs == [] || now == jobs[0].started || now - jobs[0].started == 2.0 * jobs[0].cost
  {
  }

  /** While every front query has run for at most twice its cost, the spread is at most one query. */
  lemma SpreadOfProgress(loads: seq<seq<Job>>, now: real, largest: real)
    requires CostsWithin(loads, largest) && largest >= 0.0
    requires forall i :: 0 <= i < |loads| && loads[i] != [] ==> 0.0 <= now - loads[i][0].started <= 2.0 * loads[i][0].cost
    ensures SpreadWithin(loads, now, largest)
  {
    forall i, j | 0 <= i < |loads| && 0 <= j < |loads| && loads[i] != []
      ensures Adjustment(loads[j], now) <= Adjustment(loads[i], now) + largest
    {
      assert 0.0 <= loads[i][0].cost <= largest;
    }
  }
}
