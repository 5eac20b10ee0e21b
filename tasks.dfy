/**
 * Simulation tasks are the integers 0 .. simulations-1. A set of deques holds
 * the tasks not yet taken; `Pending` is the bag of those tasks.
 */
module Tasks {

  /** The task indices 0 .. n-1, in increasing order. */
  function Range(n: nat): (r: seq<int>)
    ensures |r| == n
  {
    if n == 0 then [] else Range(n - 1) + [n - 1]
  }

  /** Position i of `Range(n)` holds task i. */
  lemma {:induction false} RangeAt(n: nat)
    ensures forall i :: 0 <= i < n ==> Range(n)[i] == i
  {
    if n > 0 {
      RangeAt(n - 1);
    }
  }

  /** Every task still queued, over all deques, counted with multiplicity. */
  function Pending(qs: seq<seq<int>>): multiset<int> {
    if qs == [] then multiset{} else Pending(qs[..|qs| - 1]) + multiset(qs[|qs| - 1])
  }

  /** Sum of the deque lengths. */
  function TotalSize(qs: seq<seq<int>>): nat {
    if qs == [] then 0 else TotalSize(qs[..|qs| - 1]) + |qs[|qs| - 1]|
  }

  predicate AllEmpty(qs: seq<seq<int>>) {
    forall k :: 0 <= k < |qs| ==> qs[k] == []
  }

  /** No element occurs twice. */
  predicate NoDuplicates(s: seq<int>) {
    forall a, b :: 0 <= a < b < |s| ==> s[a] != s[b]
  }

  /** Replacing one deque's contents changes the pending bag by exactly that difference. */
  lemma {:induction false} PendingUpdate(qs: seq<seq<int>>, k: nat, s: seq<int>)
    requires k < |qs|
    ensures Pending(qs[k := s]) + multiset(qs[k]) == Pending(qs) + multiset(s)
  {
    var n := |qs|;
    var qs' := qs[k := s];
    if k == n - 1 {
      assert qs'[..n - 1] == qs[..n - 1];
    } else {
      assert qs'[..n - 1] == qs[..n - 1][k := s];
      assert qs'[n - 1] == qs[n - 1] && qs[..n - 1][k] == qs[k];
      PendingUpdate(qs[..n - 1], k, s);
      var rest, rest', last := Pending(qs[..n - 1]), Pending(qs'[..n - 1]), multiset(qs[n - 1]);
      assert Pending(qs') == rest' + last;
      assert Pending(qs) == rest + last;
      assert rest' + multiset(qs[k]) == rest + multiset(s);
      assert rest' + last + multiset(qs[k]) == (rest' + multiset(qs[k])) + last;
      assert rest + last + multiset(s) == (rest + multiset(s)) + last;
    }
  }

  /** Appending a task to one deque adds exactly that task to the pending bag. */
  lemma PendingPush(qs: seq<seq<int>>, k: nat, x: int)
    requires k < |qs|
    ensures Pending(qs[k := qs[k] + [x]]) == Pending(qs) + multiset{x}
  {
    var grown := qs[k] + [x];
    PendingUpdate(qs, k, grown);
    assert multiset(grown) == multiset(qs[k]) + multiset{x};
    var after, expected, dropped := Pending(qs[k := grown]), Pending(qs) + multiset{x}, multiset(qs[k]);
    assert after + dropped == expected + dropped;
    forall y
      ensures after[y] == expected[y]
    {
      assert (after + dropped)[y] == (expected + dropped)[y];
    }
  }

  /** Taking task x out of one deque removes exactly that task from the pending bag. */
  lemma PendingTake(qs: seq<seq<int>>, k: nat, rest: seq<int>, x: int)
    requires k < |qs| && multiset(qs[k]) == multiset(rest) + multiset{x}
    ensures Pending(qs[k := rest]) + multiset{x} == Pending(qs)
  {
    PendingUpdate(qs, k, rest);
    var after, kept := Pending(qs[k := rest]), multiset(rest);
    assert after + multiset{x} + kept == Pending(qs) + kept;
    forall y
      ensures (after + multiset{x})[y] == Pending(qs)[y]
    {
      assert (after + multiset{x} + kept)[y] == (Pending(qs) + kept)[y];
    }
  }

  /** Nothing is pending exactly when every deque is empty. */
  lemma {:induction false} PendingEmpty(qs: seq<seq<int>>)
    ensures Pending(qs) == multiset{} <==> AllEmpty(qs)
  {
    if qs != [] {
      var n := |qs|;
      PendingEmpty(qs[..n - 1]);
      if AllEmpty(qs[..n - 1]) && qs[n - 1] == [] {
        assert forall k :: 0 <= k < n ==> qs[k] == (if k < n - 1 then qs[..n - 1][k] else qs[n - 1]);
      }
    }
  }

  /** The number of pending tasks is the sum of the deque lengths. */
  lemma {:induction false} PendingSize(qs: seq<seq<int>>)
    ensures |Pending(qs)| == TotalSize(qs)
  {
    if qs != [] {
      PendingSize(qs[..|qs| - 1]);
    }
  }

  /** Adding task n to the tasks below n gives the tasks below n + 1. */
  lemma RangeBag(n: nat)
    ensures multiset(Range(n + 1)) == multiset(Range(n)) + multiset{n}
  {
    assert Range(n + 1) == Range(n) + [n];
  }

  /** Each task index occurs once in `Range(n)`; nothing else occurs. */
  lemma {:induction false} RangeCount(n: nat, x: int)
    ensures multiset(Range(n))[x] == if 0 <= x < n then 1 else 0
  {
    if n > 0 {
      var prev := Range(n - 1);
      RangeCount(n - 1, x);
      assert Range(n) == prev + [n - 1];
      calc {
        multiset(Range(n))[x];
        (multiset(prev) + multiset([n - 1]))[x];
        multiset(prev)[x] + multiset([n - 1])[x];
      }
    }
  }

  /** A sequence with the same elements as `Range(n)` holds every task exactly once. */
  lemma PermutationOfRange(s: seq<int>, n: nat)
    requires multiset(s) == multiset(Range(n))
    ensures |s| == n && NoDuplicates(s)
    ensures forall i :: 0 <= i < |s| ==> 0 <= s[i] < n
    ensures forall x :: 0 <= x < n ==> x in s
  {
    assert |s| == |multiset(s)| == |multiset(Range(n))| == n;
    forall i | 0 <= i < |s|
      ensures 0 <= s[i] < n
    {
      assert s[i] in multiset(s);
      RangeCount(n, s[i]);
    }
    forall x | 0 <= x < n
      ensures x in s
    {
      RangeCount(n, x);
      assert x in multiset(s);
    }
    forall a, b | 0 <= a < b < |s|
      ensures s[a] != s[b]
    {
      if s[a] == s[b] {
        assert s == s[..a] + [s[a]] + s[a + 1..b] + [s[b]] + s[b + 1..];
        assert multiset(s)[s[a]] >= 2;
        RangeCount(n, s[a]);
        assert false;
      }
    }
  }
}
