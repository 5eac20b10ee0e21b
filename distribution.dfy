/**
 * Static round-robin distribution of the tasks over the workers' deques:
 * task i is pushed onto deque i mod numThreads, in increasing i.
 */
module Distribution {
  import opened Tasks
  import opened Deques
  import Arith

  /**
   * The contents of the m deques after tasks 0 .. n-1 were distributed:
   * task i is appended to deque i mod m.
   */
  function Assignment(n: nat, m: nat): (qs: seq<seq<int>>)
    requires n > 0 ==> m > 0
    ensures |qs| == m
  {
    if n == 0 then seq(m, _ => [])
    else
      var prev := Assignment(n - 1, m);
      prev[(n - 1) % m := prev[(n - 1) % m] + [n - 1]]
  }

  /** Deque k holds exactly the tasks below n whose index is k modulo m. */
  lemma {:induction false} AssignmentMembers(n: nat, m: nat, k: nat, x: int)
    requires m > 0 && k < m
    ensures x in Assignment(n, m)[k] <==> 0 <= x < n && x % m == k
  {
    if n > 0 {
      AssignmentMembers(n - 1, m, k, x);
    }
  }

  /** Deque k holds its tasks in strictly increasing order. */
  lemma {:induction false} AssignmentAscending(n: nat, m: nat, k: nat)
    requires m > 0 && k < m
    ensures forall a, b :: 0 <= a < b < |Assignment(n, m)[k]| ==> Assignment(n, m)[k][a] < Assignment(n, m)[k][b]
  {
    if n > 0 {
      var prev := Assignment(n - 1, m)[k];
      AssignmentAscending(n - 1, m, k);
      forall a | 0 <= a < |prev|
        ensures prev[a] < n - 1
      {
        AssignmentMembers(n - 1, m, k, prev[a]);
      }
    }
  }

  /** Deque k receives n / m tasks, plus one when k is below n mod m. */
  lemma {:induction false} AssignmentSize(n: nat, m: nat, k: nat)
    requires k < m
    ensures |Assignment(n, m)[k]| == n / m + (if k < n % m then 1 else 0)
  {
    if n > 0 {
      AssignmentSize(n - 1, m, k);
      Arith.DivModSucc(n - 1, m);
      var q, r := (n - 1) / m, (n - 1) % m;
      assert |Assignment(n, m)[k]| == |Assignment(n - 1, m)[k]| + (if r == k then 1 else 0);
      if r < m - 1 {
        assert n / m == q && n % m == r + 1;
      } else {
        assert n / m == q + 1 && n % m == 0;
      }
    }
  }

  /** Lower-indexed deques get no fewer tasks, and no deque gets more than one task more than another. */
  lemma AssignmentBalanced(n: nat, m: nat, a: nat, b: nat)
    requires a <= b < m
    ensures |Assignment(n, m)[b]| <= |Assignment(n, m)[a]| <= |Assignment(n, m)[b]| + 1
  {
    AssignmentSize(n, m, a);
    AssignmentSize(n, m, b);
  }

  /** The deques partition the tasks: together they hold every task below n exactly once. */
  lemma {:induction false} AssignmentPartition(n: nat, m: nat)
    requires n > 0 ==> m > 0
    ensures Pending(Assignment(n, m)) == multiset(Range(n))
  {
    if n == 0 {
      PartitionZero(m);
    } else {
      AssignmentPartition(n - 1, m);
      PartitionStep(n - 1, m);
    }
  }

  lemma PartitionZero(m: nat)
    ensures Pending(Assignment(0, m)) == multiset{}
  {
    assert AllEmpty(Assignment(0, m));
    PendingEmpty(Assignment(0, m));
  }

  /** Distributing task n adds exactly task n to what the deques hold. */
  lemma PartitionStep(n: nat, m: nat)
    requires m > 0
    requires Pending(Assignment(n, m)) == multiset(Range(n))
    ensures Pending(Assignment(n + 1, m)) == multiset(Range(n + 1))
  {
    var prev, j := Assignment(n, m), n % m;
    PendingPush(prev, j, n);
    RangeBag(n);
  }

  /** The deque sizes add up to the number of tasks. */
  lemma AssignmentTotal(n: nat, m: nat)
    requires n > 0 ==> m > 0
    ensures TotalSize(Assignment(n, m)) == n
  {
    AssignmentPartition(n, m);
    PendingSize(Assignment(n, m));
  }

  /** The distribution example: seven tasks over three workers give deques of sizes 3, 2 and 2. */
  lemma SevenOverThree()
    ensures |Assignment(7, 3)[0]| == 3 && |Assignment(7, 3)[1]| == 2 && |Assignment(7, 3)[2]| == 2
  {
    AssignmentSize(7, 3, 0);
    AssignmentSize(7, 3, 1);
    AssignmentSize(7, 3, 2);
  }

  /**
   * The setup of the work-stealing run: one fresh deque per worker, then
   * task i pushed onto deque i mod numThreads for i in 0 .. simulations-1.
   */
  method Distribute(simulations: nat, numThreads: nat) returns (deques: seq<Deque>)
    requires simulations > 0 ==> numThreads > 0
    ensures |deques| == numThreads && Distinct(deques)
    ensures forall k :: 0 <= k < |deques| ==> fresh(deques[k])
    ensures Snapshot(deques) == Assignment(simulations, numThreads)
  {
    deques := [];
    var i := 0;
    while i < numThreads
      invariant i <= numThreads && |deques| == i && Distinct(deques)
      invariant forall k :: 0 <= k < |deques| ==> fresh(deques[k]) && deques[k].items == []
    {
      var d := new Deque();
      deques := deques + [d];
      i := i + 1;
    }
    assert Snapshot(deques) == Assignment(0, numThreads);
    i := 0;
    while i < simulations
      invariant i <= simulations
      invariant forall k :: 0 <= k < |deques| ==> fresh(deques[k])
      invariant Snapshot(deques) == Assignment(i, numThreads)
    {
      ghost var before := Snapshot(deques);
      var j := i % numThreads;
      deques[j].Push(i);
      assert Snapshot(deques) == before[j := before[j] + [i]];
      i := i + 1;
    }
  }
}
