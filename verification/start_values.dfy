/** The balancer's bound before any query has started, when start values are whatever queries are created with. */
module StartValues {
  import opened Reals
  import opened Scheduling

  /** No query has started: all have the start values they were created with, between two values. */
  ghost predicate Unstarted(loads: seq<seq<Job>>, lo: real, hi: real) {
    forall i, j :: 0 <= i < |loads| && 0 <= j < |loads[i]| ==> lo <= loads[i][j].started <= hi
  }

  /** No start value is passed, and there is only one. */
  predicate Level(lo: real, hi: real, now: real) {
    lo == hi && now <= lo
  }

  lemma AdjustmentsApart(a: seq<Job>, b: seq<Job>, now: real, lo: real, hi: real, largest: real)
    requires largest >= 0.0 && lo <= hi && a != [] && 0.0 <= a[0].cost <= largest && lo <= a[0].started <= hi
    requires b != [] ==> 0.0 <= b[0].cost <= largest && lo <= b[0].started <= hi
    ensures Adjustment(b, now) <= Adjustment(a, now) + (2.0 * largest + (hi - lo))
    ensures Level(lo, hi, now) ==> Adjustment(b, now) <= Adjustment(a, now)
  {
  }

  /** While nothing has started the spread is at most two queries and the range of the start values. There is
      none as long as there is one start value that the clock is not past, or with a single replica. */
  lemma SpreadBeforeStart(loads: seq<seq<Job>>, now: real, lo: real, hi: real, largest: real)
    requires Unstarted(loads, lo, hi) && lo <= hi && CostsWithin(loads, largest) && largest >= 0.0
    ensures SpreadWithin(loads, now, 2.0 * largest + (hi - lo))
    ensures Level(lo, hi, now) || |loads| == 1 ==> SpreadWithin(loads, now, 0.0)
  {
    forall i, j | 0 <= i < |loads| && 0 <= j < |loads| && loads[i] != []
      ensures Adjustment(loads[j], now) <= Adjustment(loads[i], now) + (2.0 * largest + (hi - lo))
      ensures Level(lo, hi, now) || |loads| == 1 ==> Adjustment(loads[j], now) <= Adjustment(loads[i], now)
    {
      assert 0.0 <= loads[i][0].cost <= largest && lo <= loads[i][0].started <= hi;
      if loads[j] != [] { assert 0.0 <= loads[j][0].cost <= largest && lo <= loads[j][0].started <= hi; }
      AdjustmentsApart(loads[i], loads[j], now, lo, hi, largest);
    }
  }

  ghost predicate IsArrival(e: Event, lo: real, hi: real, until: real, largest: real) {
    e.Arrive? && lo <= e.unset <= hi && e.now <= until && forall i :: 0 <= i < |e.costs| ==> e.costs[i] <= largest
  }

  /** Only arrivals, of queries created with start values between two values, up to a clock reading and a
      largest cost. */
  ghost predicate OnlyArrivals(events: seq<Event>, lo: real, hi: real, until: real, largest: real) {
    forall k :: 0 <= k < |events| ==> IsArrival(events[k], lo, hi, until, largest)
  }

  lemma {:induction false} ArrivalsBounded(loads: seq<seq<Job>>, events: seq<Event>, last: seq<seq<Job>>,
                                           lo: real, hi: real, until: real, largest: real)
    requires IsRun(loads, events, last) && OnlyArrivals(events, lo, hi, until, largest)
    requires Unstarted(loads, lo, hi) && lo <= hi && CostsWithin(loads, largest) && largest >= 0.0
    ensures Bounded(loads, events, largest, 2.0 * largest + (hi - lo))
    ensures Level(lo, hi, until) || |loads| == 1 ==> Bounded(loads, events, largest, 0.0)
    decreases |events|
  {
    if events != [] {
      var e := events[0];
      assert IsArrival(e, lo, hi, until, largest);
      SpreadBeforeStart(loads, e.now, lo, hi, largest);
      assert forall k :: 0 <= k < |events[1..]| ==> events[1..][k] == events[k + 1];
      NextUnstarted(loads, e, lo, hi, until, largest);
      ArrivalsBounded(After(loads, e), events[1..], last, lo, hi, until, largest);
    }
  }

  lemma NextUnstarted(loads: seq<seq<Job>>, e: Event, lo: real, hi: real, until: real, largest: real)
    requires Possible(loads, e) && IsArrival(e, lo, hi, until, largest)
    requires forall i :: 0 <= i < |e.costs| ==> e.costs[i] >= 0.0
    requires Unstarted(loads, lo, hi) && CostsWithin(loads, largest)
    ensures Unstarted(After(loads, e), lo, hi) && CostsWithin(After(loads, e), largest)
  {
  }

  /** Some arrivals at idle replicas before any query has started. */
  ghost predicate BeforeStart(m: nat, events: seq<Event>, last: seq<seq<Job>>, lo: real, hi: real, until: real,
                              largest: real)
  {
    largest >= 0.0 && IsRun(Idle(m), events, last) && OnlyArrivals(events, lo, hi, until, largest)
  }

  /** No queue exceeds an even share by more than `more`; with the largest query this is the bound the
      balancer aims at. */
  ghost predicate Within(m: nat, events: seq<Event>, last: seq<seq<Job>>, more: real)
    requires m > 0
  {
    |last| == m && forall i :: 0 <= i < m ==> Cost(last[i]) <= Charged(Idle(m), events) / m as real + more
  }

  /** Before any query has started, whatever start values queries are created with: three queries and the
      range of the start values. */
  lemma BoundBeforeStart(m: nat, events: seq<Event>, last: seq<seq<Job>>, lo: real, hi: real, until: real,
                         largest: real)
    requires m > 0 && lo <= hi && BeforeStart(m, events, last, lo, hi, until, largest)
    ensures Within(m, events, last, largest + (2.0 * largest + (hi - lo)))
    ensures Level(lo, hi, until) || m == 1 ==> Within(m, events, last, largest)
  {
    ArrivalsBounded(Idle(m), events, last, lo, hi, until, largest);
    BoundWithSpread(m, events, last, largest, 2.0 * largest + (hi - lo));
    if Level(lo, hi, until) || m == 1 {
      BoundWithSpread(m, events, last, largest, 0.0);
      assert largest + 0.0 == largest;
    }
  }

  lemma BoundWithSpread(m: nat, events: seq<Event>, last: seq<seq<Job>>, largest: real, spread: real)
    requires m > 0 && largest >= 0.0 && spread >= 0.0
    requires IsRun(Idle(m), events, last) && Bounded(Idle(m), events, largest, spread)
    ensures Within(m, events, last, largest + spread)
  {
    RunKeepsLength(Idle(m), events, last);
    forall i | 0 <= i < m ensures Cost(last[i]) <= Charged(Idle(m), events) / m as real + (largest + spread) {
      BoundPlusSpread(m, events, last, largest, spread, i);
    }
  }

  lemma BoundPlusSpread(m: nat, events: seq<Event>, last: seq<seq<Job>>, largest: real, spread: real, i: nat)
    requires m > 0 && i < m && largest >= 0.0 && spread >= 0.0
    requires IsRun(Idle(m), events, last) && Bounded(Idle(m), events, largest, spread)
    ensures i < |last| && Cost(last[i]) <= Charged(Idle(m), events) / m as real + largest + spread
  {
    GreedyBound(m, events, last, largest, spread, i);
    ShareNotNegative(largest, m);
  }

  lemma ShareNotNegative(x: real, m: nat)
    requires x >= 0.0 && m > 0
    ensures x / m as real >= 0.0
  {
  }

  lemma {:induction false} RunKeepsLength(loads: seq<seq<Job>>, events: seq<Event>, last: seq<seq<Job>>)
    requires IsRun(loads, events, last)
    ensures |last| == |loads|
    decreases |events|
  {
    if events != [] { RunKeepsLength(After(loads, events[0]), events[1..], last); }
  }

  lemma {:induction false} RunOneMore(loads: seq<seq<Job>>, events: seq<Event>, mid: seq<seq<Job>>, e: Event)
    requires IsRun(loads, events, mid)
    requires Possible(mid, e) && e.Arrive? && forall i :: 0 <= i < |e.costs| ==> e.costs[i] >= 0.0
    ensures IsRun(loads, events + [e], After(mid, e))
    ensures Charged(loads, events + [e]) == Charged(loads, events) + e.costs[FirstLeast(Estimates(mid, e.costs, e.now))]
    decreases |events|
  {
    if events == [] {
      assert [e][1..] == [];
      assert IsRun(After(mid, e), [e][1..], After(mid, e));
    } else {
      assert (events + [e])[1..] == events[1..] + [e];
      RunOneMore(After(loads, events[0]), events[1..], mid, e);
    }
  }

  /** What a replica's estimate is without the new query. */
  function Standing(jobs: seq<Job>, now: real): real {
    Cost(jobs) + Adjustment(jobs, now)
  }

  /** A run from idle replicas goes on with a query for the replica that stands lowest. */
  lemma QueryGoesTo(m: nat, before: seq<Event>, loads: seq<seq<Job>>, job: Job, now: real, id: nat,
                    lo: real, hi: real, until: real, largest: real) returns (events: seq<Event>)
    requires BeforeStart(m, before, loads, lo, hi, until, largest) && now <= until
    requires 0.0 <= job.cost <= largest && lo <= job.started <= hi
    requires |loads| == m && id < m
    requires forall j :: 0 <= j < m ==> Standing(loads[id], now) <= Standing(loads[j], now)
    requires forall j :: 0 <= j < id ==> Standing(loads[id], now) < Standing(loads[j], now)
    ensures BeforeStart(m, events, loads[id := loads[id] + [job]], lo, hi, until, largest)
    ensures Charged(Idle(m), events) == Charged(Idle(m), before) + job.cost
  {
    var e := Arrive(seq(m, i => job.cost), now, job.started);
    var es := Estimates(loads, e.costs, now);
    FirstLeastUnique(es, FirstLeast(es), id);
    RunOneMore(Idle(m), before, loads, e);
    events := before + [e];
  }

  /** The first `k` replicas have one query each, the first of them its own. */
  ghost function Filled(m: nat, k: nat, first: Job, other: Job): seq<seq<Job>> {
    seq(m, i => if i >= k then [] else [if i == 0 then first else other])
  }

  lemma StandingOfOne(job: Job, now: real)
    ensures Standing([], now) == 0.0 && Standing([job], now) == Abs(job.cost - (now - job.started))
  {
    CostAppend([], job);
    assert [] + [job] == [job];
  }

  /** As long as a replica with one query stands above an empty one, every empty replica gets a query. */
  lemma {:induction false} FillReplicas(m: nat, k: nat, first: Job, other: Job, lo: real, hi: real, until: real,
                                        largest: real)
    returns (events: seq<Event>)
    requires k <= m && lo <= first.started <= hi && lo <= other.started <= hi
    requires 0.0 <= first.cost <= largest && 0.0 <= other.cost <= largest
    requires first.cost != until - first.started && other.cost != until - other.started
    ensures BeforeStart(m, events, Filled(m, k, first, other), lo, hi, until, largest)
    ensures Charged(Idle(m), events) == (if k > 0 then first.cost - other.cost else 0.0) + Scaled(k, other.cost)
  {
    if k == 0 {
      events := [];
      assert Filled(m, 0, first, other) == Idle(m);
    } else {
      var before := FillReplicas(m, k - 1, first, other, lo, hi, until, largest);
      events := FillOne(m, before, k - 1, first, other, lo, hi, until, largest);
    }
  }

  lemma FillOne(m: nat, before: seq<Event>, k: nat, first: Job, other: Job, lo: real, hi: real, until: real,
                largest: real)
    returns (events: seq<Event>)
    requires k < m && lo <= first.started <= hi && lo <= other.started <= hi
    requires 0.0 <= first.cost <= largest && 0.0 <= other.cost <= largest
    requires first.cost != until - first.started && other.cost != until - other.started
    requires BeforeStart(m, before, Filled(m, k, first, other), lo, hi, until, largest)
    ensures BeforeStart(m, events, Filled(m, k + 1, first, other), lo, hi, until, largest)
    ensures Charged(Idle(m), events) == Charged(Idle(m), before) + if k == 0 then first.cost else other.cost
  {
    var loads, job := Filled(m, k, first, other), if k == 0 then first else other;
    StandingOfOne(first, until);
    StandingOfOne(other, until);
    FilledNext(m, k, first, other);
    events := QueryGoesTo(m, before, loads, job, until, k, lo, hi, until, largest);
  }

  lemma FilledNext(m: nat, k: nat, first: Job, other: Job)
    requires k < m
    ensures var loads := Filled(m, k, first, other);
            loads[k := loads[k] + [if k == 0 then first else other]] == Filled(m, k + 1, first, other)
  {
    var loads := Filled(m, k, first, other);
    var next := loads[k := loads[k] + [if k == 0 then first else other]];
    forall i | 0 <= i < m ensures next[i] == Filled(m, k + 1, first, other)[i] {
    }
  }

  /** The first replica has this queue, every other one a single query. */
  ghost function Piled(m: nat, queue: seq<Job>, other: Job): seq<seq<Job>> {
    seq(m, i => if i == 0 then queue else [other])
  }

  /** As long as the first replica does not stand above the others, it gets the next query too. */
  lemma PileOne(m: nat, before: seq<Event>, queue: seq<Job>, other: Job, job: Job, lo: real, hi: real, until: real,
                largest: real)
    returns (events: seq<Event>)
    requires m > 0 && queue != [] && BeforeStart(m, before, Piled(m, queue, other), lo, hi, until, largest)
    requires 0.0 <= job.cost <= largest && lo <= job.started <= hi
    requires Standing(queue, until) <= Standing([other], until)
    ensures BeforeStart(m, events, Piled(m, queue + [job], other), lo, hi, until, largest)
    ensures Charged(Idle(m), events) == Charged(Idle(m), before) + job.cost
    ensures Cost(queue + [job]) == Cost(queue) + job.cost
    ensures Standing(queue + [job], until) == Standing(queue, until) + job.cost
  {
    CostAppend(queue, job);
    var loads := Piled(m, queue, other);
    events := QueryGoesTo(m, before, loads, job, until, 0, lo, hi, until, largest);
    assert loads[0 := queue + [job]] == Piled(m, queue + [job], other);
  }

  lemma FilledIsPiled(m: nat, first: Job, other: Job)
    ensures Filled(m, m, first, other) == Piled(m, [first], other)
  {
  }

  lemma ShareBelow(r: real, y: real, x: real, b: real)
    requires r >= 2.0 && 0.0 <= y < 2.0 * (b - x)
    ensures (y + r * x) / r < b
  {
    Weighted(b - x, 2.0, r);
    assert (b - x) * r == r * b - r * x;
    QuotientBelow(y + r * x, r, b);
  }

  lemma Exceeds(m: nat, events: seq<Event>, queue: seq<Job>, other: Job, y: real, x: real, largest: real)
    requires m > 1 && Charged(Idle(m), events) == y + Scaled(m, x) && 0.0 <= y < 2.0 * (Cost(queue) - largest - x)
    ensures !Within(m, events, Piled(m, queue, other), largest)
  {
    ScaledProduct(m, x);
    ShareBelow(m as real, y, x, Cost(queue) - largest);
    assert Piled(m, queue, other)[0] == queue;
  }

  /** With more than one replica and the clock past a start value, a long front query lowers the estimate of
      its queue most, and the queue gets the next ones too. */
  lemma PassedExceeds(m: nat, lo: real, hi: real, until: real)
    returns (events: seq<Event>, last: seq<seq<Job>>, largest: real)
    requires m > 1 && lo <= hi && until > lo
    ensures BeforeStart(m, events, last, lo, hi, until, largest) && !Within(m, events, last, largest)
  {
    var x := (until - lo) / 20.0;
    var (a, b, c) := (Job(10.0 * x, lo), Job(8.0 * x, lo), Job(x, lo));
    largest := 10.0 * x;
    events := FillReplicas(m, m, a, c, lo, hi, until, largest);
    FilledIsPiled(m, a, c);
    StandingOfOne(a, until);
    StandingOfOne(c, until);
    events := PileOne(m, events, [a], c, b, lo, hi, until, largest);
    events := PileOne(m, events, [a] + [b], c, a, lo, hi, until, largest);
    last := Piled(m, [a] + [b] + [a], c);
    Exceeds(m, events, [a] + [b] + [a], c, 27.0 * x, x, largest);
  }

  /** With more than one replica and two start values, neither of them passed, a front query with the smaller
      one lowers the estimate of its queue, by the difference. */
  lemma DifferentExceeds(m: nat, lo: real, hi: real, until: real)
    returns (events: seq<Event>, last: seq<seq<Job>>, largest: real)
    requires m > 1 && lo < hi && until <= lo
    ensures BeforeStart(m, events, last, lo, hi, until, largest) && !Within(m, events, last, largest)
  {
    var x := (hi - lo) / 3.0;
    var (a, c) := (Job(x, lo), Job(x, hi));
    largest := x;
    events := FillReplicas(m, m, a, c, lo, hi, until, largest);
    FilledIsPiled(m, a, c);
    StandingOfOne(a, until);
    StandingOfOne(c, until);
    events := PileOne(m, events, [a], c, a, lo, hi, until, largest);
    events := PileOne(m, events, [a] + [a], c, a, lo, hi, until, largest);
    events := PileOne(m, events, [a] + [a] + [a], c, a, lo, hi, until, largest);
    events := PileOne(m, events, [a] + [a] + [a] + [a], c, a, lo, hi, until, largest);
    last := Piled(m, [a] + [a] + [a] + [a] + [a], c);
    Exceeds(m, events, [a] + [a] + [a] + [a] + [a], c, 4.0 * x, x, largest);
  }

  /** Before any query has started, the balancer keeps every queue within an even share and one query, over
      all arrivals up to a clock reading, exactly when there is one replica, or all queries are created with
      one start value and the clock is not past it. */
  lemma BoundBeforeStartIff(m: nat, lo: real, hi: real, until: real)
    requires m > 0 && lo <= hi
    ensures (forall events, last, largest ::
               BeforeStart(m, events, last, lo, hi, until, largest) ==> Within(m, events, last, largest))
       <==> m == 1 || (lo == hi && until <= lo)
  {
    if m == 1 || (lo == hi && until <= lo) {
      forall events, last, largest | BeforeStart(m, events, last, lo, hi, until, largest)
        ensures Within(m, events, last, largest)
      {
        BoundBeforeStart(m, events, last, lo, hi, until, largest);
      }
    } else if until > lo {
      var events, last, largest := PassedExceeds(m, lo, hi, until);
    } else {
      var events, last, largest := DifferentExceeds(m, lo, hi, until);
    }
  }

  lemma NextOfTwo(before: seq<Event>, q0: seq<Job>, q1: seq<Job>, job: Job, now: real, lo: real, hi: real,
                  until: real, largest: real)
    returns (events: seq<Event>)
    requires BeforeStart(2, before, [q0, q1], lo, hi, until, largest) && now <= until
    requires 0.0 <= job.cost <= largest && lo <= job.started <= hi
    ensures var last := if Standing(q0, now) <= Standing(q1, now) then [q0 + [job], q1] else [q0, q1 + [job]];
            BeforeStart(2, events, last, lo, hi, until, largest) && Charged(Idle(2), events) == Charged(Idle(2), before) + job.cost
  {
    var loads, id := [q0, q1], if Standing(q0, now) <= Standing(q1, now) then 0 else 1;
    events := QueryGoesTo(2, before, loads, job, now, id, lo, hi, until, largest);
    assert loads[id := loads[id] + [job]] == if id == 0 then [q0 + [job], q1] else [q0, q1 + [job]];
  }

  /** Two idle replicas, start values 0, queries of cost 10, 1, 9 and 10 at the times 1000 to 1003: three of
      them are queued on the first replica. */
  lemma PassedExample() returns (events: seq<Event>, last: seq<seq<Job>>)
    ensures BeforeStart(2, events, last, 0.0, 0.0, 1003.0, 10.0) && Charged(Idle(2), events) == 30.0
    ensures last != [] && Cost(last[0]) == 29.0 && !Within(2, events, last, 10.0)
  {
    var (a, b, c) := (Job(10.0, 0.0), Job(1.0, 0.0), Job(9.0, 0.0));
    ShortQueues(a, b);
    ShortQueues(a, c);
    events := [];
    assert Idle(2) == [[], []] && [] + [a] == [a] && [] + [b] == [b];
    events := NextOfTwo(events, [], [], a, 1000.0, 0.0, 0.0, 1003.0, 10.0);
    events := NextOfTwo(events, [a], [], b, 1001.0, 0.0, 0.0, 1003.0, 10.0);
    events := NextOfTwo(events, [a], [b], c, 1002.0, 0.0, 0.0, 1003.0, 10.0);
    events := NextOfTwo(events, [a] + [c], [b], a, 1003.0, 0.0, 0.0, 1003.0, 10.0);
    CostAppend([a] + [c], a);
    last := [[a] + [c] + [a], [b]];
  }

  /** Two idle replicas, clock 1000, queries of cost 1 created with the start values 2000, 5000 and three times
      2000, none of them passed: four are queued on the first replica. */
  lemma DifferentExample() returns (events: seq<Event>, last: seq<seq<Job>>)
    ensures BeforeStart(2, events, last, 2000.0, 5000.0, 1000.0, 1.0) && Charged(Idle(2), events) == 5.0
    ensures last != [] && Cost(last[0]) == 4.0 && !Within(2, events, last, 1.0)
  {
    var (a, b) := (Job(1.0, 2000.0), Job(1.0, 5000.0));
    ShortQueues(a, a);
    ShortQueues(b, b);
    events := [];
    assert Idle(2) == [[], []] && [] + [a] == [a] && [] + [b] == [b];
    events := NextOfTwo(events, [], [], a, 1000.0, 2000.0, 5000.0, 1000.0, 1.0);
    events := NextOfTwo(events, [a], [], b, 1000.0, 2000.0, 5000.0, 1000.0, 1.0);
    StandingOfOne(a, 1000.0);
    StandingOfOne(b, 1000.0);
    assert [[a], [b]] == Piled(2, [a], b);
    events := PileOne(2, events, [a], b, a, 2000.0, 5000.0, 1000.0, 1.0);
    events := PileOne(2, events, [a] + [a], b, a, 2000.0, 5000.0, 1000.0, 1.0);
    events := PileOne(2, events, [a] + [a] + [a], b, a, 2000.0, 5000.0, 1000.0, 1.0);
    last := Piled(2, [a] + [a] + [a] + [a], b);
  }

  lemma ShortQueues(a: Job, b: Job)
    ensures Cost([]) == 0.0 && Cost([a]) == a.cost && Cost([b]) == b.cost && Cost([a] + [b]) == a.cost + b.cost
  {
    CostAppend([], a);
    CostAppend([], b);
    CostAppend([a], b);
    assert [] + [a] == [a] && [] + [b] == [b];
  }
}
