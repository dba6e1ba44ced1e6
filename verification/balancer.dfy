/** The balancer's greedy strategy on the replicas' queues. */
module Balancing {
  import opened Scheduling

  /** A replica's queue and its running total, as left by each critical section. */
  class Database {
    var queue: seq<Job>
    var totalCost: real

    constructor ()
      ensures Valid() && queue == []
    {
      queue, totalCost := [], 0.0;
    }

    ghost predicate Valid()
      reads this
    {
      totalCost == Cost(queue)
    }

    method AddRequest(job: Job)
      requires Valid()
      modifies this
      ensures Valid() && queue == old(queue) + [job]
    {
      CostAppend(queue, job);
      queue := queue + [job];
      totalCost := totalCost + job.cost;
    }

    /** The worker takes the front query and stamps it; nothing else is known of its start value before. */
    method StartProcess(now: real)
      requires Valid() && queue != []
      modifies this`queue
      ensures Valid() && queue == [old(queue)[0].(started := now)] + old(queue)[1..]
    {
      var jobs := [queue[0].(started := now)] + queue[1..];
      assert jobs[1..] == queue[1..];
      queue := jobs;
    }

    method RemoveQueryFromQueue() returns (top: Job)
      requires Valid() && queue != []
      modifies this
      ensures Valid() && [top] + queue == old(queue)
    {
      top := queue[0];
      totalCost := totalCost - top.cost;
      queue := queue[1..];
    }
  }

  class Smart {
    const replicas: seq<Database>

    constructor (replicas: seq<Database>)
      ensures this.replicas == replicas
    {
      this.replicas := replicas;
    }

    ghost predicate Valid()
      reads replicas
    {
      && replicas != []
      && (forall i, j :: 0 <= i < j < |replicas| ==> replicas[i] != replicas[j])
      && forall i :: 0 <= i < |replicas| ==> replicas[i].Valid()
    }

    ghost function Loads(): (loads: seq<seq<Job>>)
      reads replicas
      ensures |loads| == |replicas| && forall i :: 0 <= i < |loads| ==> loads[i] == replicas[i].queue
    {
      seq(|replicas|, i requires 0 <= i < |replicas| reads replicas => replicas[i].queue)
    }

    /** The replica with the least estimated finish cost, the first of several. */
    method Choose(costs: seq<real>, currTime: real) returns (id: nat)
      requires Valid() && |costs| == |replicas|
      ensures id == FirstLeast(Estimates(Loads(), costs, currTime))
    {
      ghost var es := Estimates(Loads(), costs, currTime);
      var mini := 0.0;
      id := 0;
      for i := 0 to |replicas|
        invariant id < |es| && (i > 0 ==> mini == es[id] && IsFirstLeast(es[..i], id))
      {
        var estimate := replicas[i].totalCost + costs[i];
        if |replicas[i].queue| > 0 {
          var front := replicas[i].queue[0];
          var spent := currTime - front.started;
          estimate := estimate - front.cost;
          estimate := estimate + Abs(front.cost - spent);
        }
        assert estimate == es[i];
        if estimate < mini || i == 0 {
          mini := estimate;
          id := i;
        }
      }
      assert es[..|replicas|] == es;
      FirstLeastUnique(es, id, FirstLeast(es));
    }

    /** Sends a query to the chosen replica, charged with its cost there. Its start value is unset. */
    method AddQuery(costs: seq<real>, currTime: real, unset: real) returns (ghost chosen: nat)
      requires Valid() && |costs| == |replicas|
      modifies replicas
      ensures Valid() && Loads() == After(old(Loads()), Arrive(costs, currTime, unset))
      ensures chosen < |replicas| && replicas[chosen].queue == old(Loads())[chosen] + [Job(costs[chosen], unset)]
      ensures forall j :: 0 <= j < |replicas| && j != chosen ==> replicas[j].queue == old(Loads())[j]
      ensures forall j :: 0 <= j < |replicas| ==>
        var (best, other) := (Estimate(old(Loads())[chosen], costs[chosen], currTime), Estimate(old(Loads())[j], costs[j], currTime));
        best <= other && (j < chosen ==> best < other)
    {
      var id := Choose(costs, currTime);
      replicas[id].AddRequest(Job(costs[id], unset));
      chosen := id;
    }

    /** A replica's worker starts its front query. */
    method StartFront(i: nat, now: real)
      requires Valid() && i < |replicas| && replicas[i].queue != []
      modifies replicas
      ensures Valid() && Possible(old(Loads()), Start(i, now)) && Loads() == After(old(Loads()), Start(i, now))
      ensures replicas[i].queue == [old(Loads())[i][0].(started := now)] + old(Loads())[i][1..]
      ensures forall j :: 0 <= j < |replicas| && j != i ==> replicas[j].queue == old(Loads())[j]
    {
      replicas[i].StartProcess(now);
    }

    /** A replica's worker finishes its front query. */
    method FinishFront(i: nat) returns (top: Job)
      requires Valid() && i < |replicas| && replicas[i].queue != []
      modifies replicas
      ensures Valid() && Possible(old(Loads()), Finish(i)) && top == old(Loads()[i][0])
      ensures Loads() == After(old(Loads()), Finish(i))
      ensures [top] + replicas[i].queue == old(Loads())[i]
      ensures forall j :: 0 <= j < |replicas| && j != i ==> replicas[j].queue == old(Loads())[j]
    {
      top := replicas[i].RemoveQueryFromQueue();
    }
  }
}
