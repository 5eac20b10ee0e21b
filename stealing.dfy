/**
 * The work-stealing worker. One iteration of a worker's loop obtains its next
 * task: pop the tail of its own deque; failing that, scan the other deques in
 * increasing index order and steal the head of the first non-empty one;
 * failing that, the worker returns. Nothing is pushed after the initial
 * distribution, so a whole run is any sequential interleaving of such
 * iterations over the distributed deques.
 */
module WorkStealing {
  import opened Wrappers
  import opened Tasks
  import opened Deques
  import opened Distribution
  import opened Aggregation

  /** The contents of the deques after one iteration of a worker, and the task it obtained. */
  datatype Step = Step(queues: seq<seq<int>>, task: Option<int>)

  /** v is the deque a worker `self` with an empty own deque steals from: the lowest-indexed other non-empty deque. */
  ghost predicate IsVictim(qs: seq<seq<int>>, self: nat, v: nat) {
    && v < |qs| && v != self && qs[v] != []
    && forall i :: 0 <= i < v && i != self ==> qs[i] == []
  }

  /** The scan over deques j, j+1, ... that skips the worker's own deque. */
  function ScanFrom(qs: seq<seq<int>>, self: nat, j: nat): (r: Option<nat>)
    requires j <= |qs|
    decreases |qs| - j
    ensures r.Some? ==> j <= r.value < |qs| && r.value != self && qs[r.value] != []
    ensures r.Some? ==> forall i :: j <= i < r.value && i != self ==> qs[i] == []
    ensures r.None? <==> forall i :: j <= i < |qs| && i != self ==> qs[i] == []
  {
    if j == |qs| then None
    else if j != self && qs[j] != [] then Some(j)
    else ScanFrom(qs, self, j + 1)
  }

  /** The deque a worker steals from, if any: the scan from index 0. */
  function Victim(qs: seq<seq<int>>, self: nat): (r: Option<nat>)
    ensures r.Some? ==> IsVictim(qs, self, r.value)
    ensures r.None? <==> forall i :: 0 <= i < |qs| && i != self ==> qs[i] == []
  {
    ScanFrom(qs, self, 0)
  }

  /** One iteration of worker `self` over the deque contents `qs`. */
  function WorkerStep(qs: seq<seq<int>>, self: nat): (r: Step)
    requires self < |qs|
    ensures |r.queues| == |qs|
    // LIFO on the worker's own deque: the tail is taken, everything else stays.
    ensures qs[self] != [] ==>
              && r.task.Some? && qs[self] == r.queues[self] + [r.task.value]
              && forall k :: 0 <= k < |qs| && k != self ==> r.queues[k] == qs[k]
    // FIFO steal from the lowest-indexed other non-empty deque.
    ensures qs[self] == [] && r.task.Some? ==>
              exists v: nat :: IsVictim(qs, self, v) && qs[v] == [r.task.value] + r.queues[v]
                          && forall k :: 0 <= k < |qs| && k != v ==> r.queues[k] == qs[k]
    // The worker returns only when every deque, its own included, is empty.
    ensures r.task.None? <==> AllEmpty(qs)
    ensures r.task.None? ==> r.queues == qs
  {
    var own := qs[self];
    if own != [] then
      Step(qs[self := own[..|own| - 1]], Some(own[|own| - 1]))
    else
      match Victim(qs, self)
      case None => Step(qs, None)
      case Some(v) => Step(qs[v := qs[v][1..]], Some(qs[v][0]))
  }

  /** The task taken, as a bag: empty when the worker returned. */
  function Taken(task: Option<int>): multiset<int> {
    match task
    case None => multiset{}
    case Some(t) => multiset{t}
  }

  /** Bookkeeping for one task taken: it moves from the deques' bag into the sequence of taken tasks. */
  lemma TakeAccount(taken: seq<int>, t: int, before: multiset<int>, after: multiset<int>, initial: multiset<int>)
    requires after + multiset{t} == before
    requires multiset(taken) + before == initial
    ensures multiset(taken + [t]) + after == initial
    ensures |after| < |before|
  {
  }

  /** A worker iteration moves one task out of the deques and loses or duplicates none. */
  lemma StepConserves(qs: seq<seq<int>>, self: nat)
    requires self < |qs|
    ensures Pending(WorkerStep(qs, self).queues) + Taken(WorkerStep(qs, self).task) == Pending(qs)
  {
    var own := qs[self];
    if own != [] {
      var t, rest := own[|own| - 1], own[..|own| - 1];
      assert WorkerStep(qs, self) == Step(qs[self := rest], Some(t));
      assert own == rest + [t];
      PendingTake(qs, self, rest, t);
    } else if Victim(qs, self).Some? {
      var v := Victim(qs, self).value;
      var t, rest := qs[v][0], qs[v][1..];
      assert WorkerStep(qs, self) == Step(qs[v := rest], Some(t));
      assert qs[v] == [t] + rest;
      PendingTake(qs, v, rest, t);
    } else {
      assert WorkerStep(qs, self) == Step(qs, None);
    }
  }

  /** A deque that is empty stays empty through any worker iteration. */
  lemma StepKeepsEmpty(qs: seq<seq<int>>, self: nat)
    requires self < |qs|
    ensures forall k :: 0 <= k < |qs| && qs[k] == [] ==> WorkerStep(qs, self).queues[k] == []
  {
  }

  /**
   * One loop iteration of the worker goroutine, up to the point where it has
   * a task or returns: its own deque's Pop, then Steal on j = 0, 1, ... with
   * j != threadID until one succeeds.
   */
  method NextTask(deques: seq<Deque>, threadID: nat) returns (task: int, ok: bool)
    requires Distinct(deques) && threadID < |deques|
    modifies deques
    ensures Snapshot(deques) == WorkerStep(old(Snapshot(deques)), threadID).queues
    ensures WorkerStep(old(Snapshot(deques)), threadID).task == if ok then Some(task) else None
    ensures !ok ==> task == 0
  {
    ghost var qs := Snapshot(deques);
    task, ok := deques[threadID].Pop();
    if !ok {
      var success := false;
      var j := 0;
      while j < |deques|
        invariant j <= |deques|
        invariant !success && !ok && task == 0
        invariant Snapshot(deques) == qs
        invariant forall i :: 0 <= i < j && i != threadID ==> qs[i] == []
      {
        if j != threadID {
          task, ok := deques[j].Steal();
          if ok {
            assert IsVictim(qs, threadID, j);
            success := true;
            break;
          }
        }
        j := j + 1;
      }
      if !success {
        return;
      }
    }
  }

  /** The thread identifiers 0 .. n-1. */
  function Threads(n: nat): (r: set<nat>)
    ensures forall w: nat :: w in r <==> w < n
  {
    if n == 0 then {} else Threads(n - 1) + {n - 1}
  }

  /**
   * The worker goroutines after distribution: running workers take
   * iterations in any order (the choice of `w` is arbitrary) until every
   * worker has returned. Returns the tasks in the order they were taken.
   */
  method RunWorkers(deques: seq<Deque>) returns (taken: seq<int>)
    requires Distinct(deques)
    modifies deques
    ensures multiset(taken) == Pending(old(Snapshot(deques)))
    ensures AllEmpty(Snapshot(deques))
  {
    taken := [];
    var workers := Threads(|deques|);
    var running := workers;
    ghost var qs := Snapshot(deques);
    ghost var initial := Pending(qs);
    ghost var someReturned := false;
    while running != {}
      invariant running <= workers
      invariant qs == Snapshot(deques)
      invariant multiset(taken) + Pending(qs) == initial
      invariant someReturned ==> AllEmpty(qs)
      invariant !someReturned ==> running == workers
      decreases |Pending(qs)|, |running|
    {
      var w :| w in running;
      ghost var step := WorkerStep(qs, w);
      var task, ok := NextTask(deques, w);
      StepConserves(qs, w);
      if ok {
        TakeAccount(taken, task, Pending(qs), Pending(step.queues), initial);
        taken := taken + [task];
      } else {
        running := running - {w};
        someReturned := true;
      }
      qs := step.queues;
    }
    if |deques| > 0 {
      assert 0 in workers;
    }
    PendingEmpty(qs);
  }

  /**
   * A whole work-stealing run: distribute the tasks round-robin, then run
   * the workers until all have returned. Every task is taken exactly once
   * and every deque ends empty.
   */
  method RunWorkStealing(simulations: nat, numThreads: nat) returns (taken: seq<int>, deques: seq<Deque>)
    requires simulations > 0 ==> numThreads > 0
    ensures multiset(taken) == multiset(Range(simulations))
    ensures |deques| == numThreads && forall k :: 0 <= k < numThreads ==> deques[k].items == []
  {
    deques := Distribute(simulations, numThreads);
    AssignmentPartition(simulations, numThreads);
    taken := RunWorkers(deques);
    assert forall k :: 0 <= k < numThreads ==> deques[k].items == Snapshot(deques)[k];
  }

  /**
   * The payoff vector of a work-stealing run. The p-th task taken gets
   * payoff draws[p] (the path generation and payoff maths are not modelled)
   * and the results reach the aggregator in any order `arrival`. Every slot
   * ends holding the payoff computed for its own task.
   */
  method WorkStealingPayoffs(simulations: nat, numThreads: nat, draws: seq<real>, arrival: seq<int>)
    returns (payoffs: seq<real>, taken: seq<int>)
    requires simulations > 0 ==> numThreads > 0
    requires |draws| == simulations
    requires multiset(arrival) == multiset(Range(simulations))
    ensures |payoffs| == |taken| == simulations && multiset(taken) == multiset(Range(simulations))
    ensures forall p :: 0 <= p < |taken| ==> 0 <= taken[p] < simulations && payoffs[taken[p]] == draws[p]
  {
    var deques;
    taken, deques := RunWorkStealing(simulations, numThreads);
    PermutationOfRange(taken, simulations);
    DeliveredPayoffs(taken, draws, arrival, simulations);
    payoffs := Aggregate(simulations, Deliver(taken, draws, arrival));
  }
}
