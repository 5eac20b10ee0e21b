/**
 * The per-worker double-ended queue of task indices. In `basket_option.go`
 * every operation runs under the deque's own mutex; here each call is one atomic
 * method on the object.
 */
module Deques {

  class Deque {
    /** The queued task indices, head first. */
    var items: seq<int>

    /** A fresh deque is empty (the zero value of the Go struct `Deque`). */
    constructor ()
      ensures items == []
    {
      items := [];
    }

    /** Appends `item` at the tail; nothing already queued moves. */
    method Push(item: int)
      modifies this
      ensures items == old(items) + [item]
    {
      items := items + [item];
    }

    /** The owner's removal: takes the tail (LIFO); `(0, false)` on an empty deque. */
    method Pop() returns (item: int, ok: bool)
      modifies this
      ensures ok <==> old(items) != []
      ensures !ok ==> item == 0 && items == old(items)
      ensures ok ==> old(items) == items + [item]
    {
      if |items| == 0 {
        return 0, false;
      }
      item := items[|items| - 1];
      items := items[..|items| - 1];
      ok := true;
    }

    /** A thief's removal: takes the head (FIFO); `(0, false)` on an empty deque. */
    method Steal() returns (item: int, ok: bool)
      modifies this
      ensures ok <==> old(items) != []
      ensures !ok ==> item == 0 && items == old(items)
      ensures ok ==> old(items) == [item] + items
    {
      if |items| == 0 {
        return 0, false;
      }
      item := items[0];
      items := items[1..];
      ok := true;
    }
  }

  /** The workers' deques are separate objects. */
  ghost predicate Distinct(ds: seq<Deque>) {
    forall a, b :: 0 <= a < b < |ds| ==> ds[a] != ds[b]
  }

  /** The contents of every deque, by worker index. */
  ghost function Snapshot(ds: seq<Deque>): seq<seq<int>>
    reads ds
  {
    seq(|ds|, k requires 0 <= k < |ds| reads ds => ds[k].items)
  }
}
