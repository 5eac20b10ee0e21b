/**
 * Index-keyed collection of results: each result written into the payoff
 * vector at its own task index, whatever order the results arrive in.
 */
module Aggregation {
  import opened Wrappers
  import opened Tasks

  /** One result from a worker: the task index and the payoff computed for it. */
  datatype PayoffRecord = PayoffRecord(index: int, payoff: real)

  /** The task indices of the results, in arrival order. */
  function Indices(results: seq<PayoffRecord>): seq<int> {
    seq(|results|, j requires 0 <= j < |results| => results[j].index)
  }

  /** The payoff that slot k holds after the results were written in order: that of the last result for k. */
  function LastPayoff(results: seq<PayoffRecord>, k: int): (r: Option<real>)
    ensures r.None? <==> forall j :: 0 <= j < |results| ==> results[j].index != k
    ensures r.Some? ==> PayoffRecord(k, r.value) in results
  {
    if results == [] then None
    else if results[|results| - 1].index == k then Some(results[|results| - 1].payoff)
    else LastPayoff(results[..|results| - 1], k)
  }

  /**
   * Drains the results into a zero-initialised vector of `simulations`
   * slots, writing `payoffs[result.index] = result.payoff` for each result.
   */
  method Aggregate(simulations: nat, results: seq<PayoffRecord>) returns (payoffs: seq<real>)
    requires forall j :: 0 <= j < |results| ==> 0 <= results[j].index < simulations
    ensures |payoffs| == simulations
    ensures forall k :: 0 <= k < simulations ==> payoffs[k] == LastPayoff(results, k).GetOr(0.0)
  {
    var slots := new real[simulations](_ => 0.0);
    for j := 0 to |results|
      invariant forall k :: 0 <= k < simulations ==> slots[k] == LastPayoff(results[..j], k).GetOr(0.0)
    {
      assert results[..j + 1][..j] == results[..j];
      slots[results[j].index] := results[j].payoff;
    }
    assert results[..|results|] == results;
    payoffs := slots[..];
  }

  /** With no index delivered twice, the slot of each result ends holding that result's payoff. */
  lemma {:induction false} SlotHoldsOwnPayoff(results: seq<PayoffRecord>, j: nat)
    requires NoDuplicates(Indices(results))
    requires j < |results|
    ensures LastPayoff(results, results[j].index) == Some(results[j].payoff)
  {
    var n := |results|;
    if j < n - 1 {
      var front := results[..n - 1];
      assert Indices(results)[j] != Indices(results)[n - 1];
      assert Indices(front) == Indices(results)[..n - 1];
      SlotHoldsOwnPayoff(front, j);
    }
  }

  /**
   * When the delivered indices are a permutation of 0 .. n-1, exactly the
   * slots 0 .. n-1 are written, and each holds the payoff of its own task's
   * result.
   */
  lemma EverySlotWritten(results: seq<PayoffRecord>, n: nat)
    requires multiset(Indices(results)) == multiset(Range(n))
    ensures forall k :: LastPayoff(results, k).Some? <==> 0 <= k < n
    ensures forall j :: 0 <= j < |results| ==> LastPayoff(results, results[j].index) == Some(results[j].payoff)
  {
    var indices := Indices(results);
    PermutationOfRange(indices, n);
    forall k
      ensures LastPayoff(results, k).Some? <==> 0 <= k < n
    {
      if 0 <= k < n {
        assert k in indices;
        var j :| 0 <= j < |indices| && indices[j] == k;
        assert results[j].index == k;
      } else {
        assert forall j :: 0 <= j < |results| ==> results[j].index == indices[j];
      }
    }
    forall j | 0 <= j < |results|
      ensures LastPayoff(results, results[j].index) == Some(results[j].payoff)
    {
      SlotHoldsOwnPayoff(results, j);
    }
  }

  /**
   * Arrival order does not matter: two deliveries of the same results, each
   * covering the indices 0 .. n-1 once, leave every slot with the same payoff.
   */
  lemma ArrivalOrderIrrelevant(first: seq<PayoffRecord>, second: seq<PayoffRecord>, n: nat)
    requires multiset(first) == multiset(second)
    requires multiset(Indices(first)) == multiset(Range(n))
    requires multiset(Indices(second)) == multiset(Range(n))
    ensures forall k :: LastPayoff(first, k) == LastPayoff(second, k)
  {
    EverySlotWritten(first, n);
    EverySlotWritten(second, n);
    forall k | 0 <= k < n
      ensures LastPayoff(first, k) == LastPayoff(second, k)
    {
      var rec := PayoffRecord(k, LastPayoff(first, k).value);
      assert rec in multiset(second);
      var j :| 0 <= j < |second| && second[j] == rec;
    }
  }

  /**
   * The results channel: the p-th task a worker took is sent with payoff
   * draws[p], and the results reach the aggregator in the order `arrival`
   * (a permutation of the take order), since workers run concurrently.
   */
  function Deliver(tasks: seq<int>, draws: seq<real>, arrival: seq<int>): seq<PayoffRecord>
    requires |draws| == |tasks|
    requires forall j :: 0 <= j < |arrival| ==> 0 <= arrival[j] < |tasks|
  {
    seq(|arrival|, j requires 0 <= j < |arrival| => PayoffRecord(tasks[arrival[j]], draws[arrival[j]]))
  }

  /**
   * If every task 0 .. n-1 is taken exactly once and every result arrives
   * exactly once, in any order, each result's index is a valid slot and the
   * slot of the p-th task taken ends holding the payoff computed for it.
   */
  lemma DeliveredPayoffs(tasks: seq<int>, draws: seq<real>, arrival: seq<int>, n: nat)
    requires |tasks| == |draws| == n
    requires multiset(tasks) == multiset(Range(n))
    requires multiset(arrival) == multiset(Range(n))
    ensures forall j :: 0 <= j < |arrival| ==> 0 <= arrival[j] < |tasks|
    ensures forall j :: 0 <= j < |Deliver(tasks, draws, arrival)| ==> 0 <= Deliver(tasks, draws, arrival)[j].index < n
    ensures forall p :: 0 <= p < n ==> LastPayoff(Deliver(tasks, draws, arrival), tasks[p]) == Some(draws[p])
  {
    PermutationOfRange(tasks, n);
    PermutationOfRange(arrival, n);
    var results := Deliver(tasks, draws, arrival);
    var indices := Indices(results);
    assert forall j :: 0 <= j < n ==> indices[j] == tasks[arrival[j]];
    assert NoDuplicates(indices);
    forall p | 0 <= p < n
      ensures LastPayoff(results, tasks[p]) == Some(draws[p])
    {
      assert p in arrival;
      var j :| 0 <= j < n && arrival[j] == p;
      SlotHoldsOwnPayoff(results, j);
    }
  }
}
