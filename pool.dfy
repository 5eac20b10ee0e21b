/**
 * The fixed worker pool: a task source fills a buffered channel with every
 * task index and closes it; the workers range over the channel; the results
 * are collected by index.
 */
module WorkerPool {
  import opened Tasks
  import opened Aggregation

  /** The task source: sends 0, 1, ..., simulations-1 into the task channel, in that order. */
  method EnqueueTasks(simulations: nat) returns (tasks: seq<int>)
    ensures |tasks| == simulations
    ensures forall i :: 0 <= i < simulations ==> tasks[i] == i
  {
    tasks := [];
    for i := 0 to simulations
      invariant tasks == Range(i)
    {
      tasks := tasks + [i];
    }
    RangeAt(simulations);
  }

  /**
   * The workers ranging over the closed channel: each time, some worker
   * receives the head of the channel, until it is empty. With no worker,
   * nothing is ever received (a negative count
   * starts no worker either).
   */
  method ReceiveTasks(tasks: seq<int>, numThreads: int) returns (received: seq<int>, receivers: seq<nat>)
    ensures numThreads > 0 ==> received == tasks
    ensures numThreads <= 0 ==> received == []
    ensures |receivers| == |received|
    ensures forall j :: 0 <= j < |receivers| ==> receivers[j] < numThreads
  {
    received, receivers := [], [];
    var channel := tasks;
    while channel != [] && numThreads > 0
      invariant received + channel == tasks
      invariant numThreads <= 0 ==> received == []
      invariant |receivers| == |received|
      invariant forall j :: 0 <= j < |receivers| ==> receivers[j] < numThreads
    {
      var w: nat :| w < numThreads;
      received, receivers := received + [channel[0]], receivers + [w];
      channel := channel[1..];
    }
  }

  /**
   * The payoff vector of a pool run. The p-th task received gets payoff
   * draws[p] (the path generation and payoff maths are not modelled) and
   * the results reach the aggregator in any order `arrival`. With at least
   * one worker every slot k ends holding task k's payoff; with none, every
   * slot keeps its zero value.
   */
  method PoolPayoffs(simulations: nat, numThreads: int, draws: seq<real>, arrival: seq<int>)
    returns (payoffs: seq<real>)
    requires |draws| == simulations
    requires multiset(arrival) == multiset(Range(simulations))
    ensures |payoffs| == simulations
    ensures numThreads > 0 ==> forall k :: 0 <= k < simulations ==> payoffs[k] == draws[k]
    ensures numThreads <= 0 ==> forall k :: 0 <= k < simulations ==> payoffs[k] == 0.0
  {
    var tasks := EnqueueTasks(simulations);
    RangeAt(simulations);
    assert tasks == Range(simulations);
    var received, _ := ReceiveTasks(tasks, numThreads);
    if numThreads > 0 {
      DeliveredPayoffs(received, draws, arrival, simulations);
      payoffs := Aggregate(simulations, Deliver(received, draws, arrival));
    } else {
      payoffs := Aggregate(simulations, []);
    }
  }
}
