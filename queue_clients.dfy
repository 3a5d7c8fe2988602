/** Callers of `LockFreeQueue` as the repository's tests use it: pushing a
    batch, draining until `pop` reports empty, and the fixed-capacity
    scenarios.  Every result here is what the queue's code returns, which
    for the capacity scenarios is not always what the tests expect: the
    code keeps one slot free, so a queue of N slots takes N - 1 items. */
module QueueClients {
  import opened OrderQueue

  function Min(a: nat, b: nat): (m: nat) { if a <= b then a else b }

  /** The accepted prefix grows by the next item while there is room. */
  lemma PrefixStep<T>(items: seq<T>, i: nat, room: nat)
    requires i < |items|
    ensures items[..Min(i + 1, room)] ==
            if i < room then items[..Min(i, room)] + [items[i]] else items[..Min(i, room)]
  {
  }

  /** Pushes every item in order.  Pushes succeed until the queue is
      full and fail from then on; the accepted items are appended in
      order and the rejected ones leave no trace. */
  method PushAll<T(0)>(q: LockFreeQueue<T>, items: seq<T>) returns (results: seq<bool>)
    requires q.Valid()
    modifies q`tail, q`contents, q.buffer
    ensures q.Valid() && q.head == old(q.head)
    ensures |results| == |items|
    ensures forall i :: 0 <= i < |items| ==>
              results[i] == (|old(q.contents)| + i < q.buffer.Length - 1)
    ensures q.contents ==
              old(q.contents) + items[..Min(|items|, q.buffer.Length - 1 - |old(q.contents)|)]
  {
    EmptyAndFull(q.buffer[..], q.head, q.tail);
    ghost var room: nat := q.buffer.Length - 1 - |q.contents|;
    results := [];
    var i := 0;
    while i < |items|
      invariant 0 <= i <= |items|
      invariant q.Valid() && q.head == old(q.head)
      invariant |results| == i
      invariant forall j :: 0 <= j < i ==> results[j] == (j < room)
      invariant q.contents == old(q.contents) + items[..Min(i, room)]
    {
      var ok := q.Push(items[i]);
      PrefixStep(items, i, room);
      results := results + [ok];
      i := i + 1;
    }
    assert items[..|items|] == items;
  }

  /** Pops until `pop` reports empty.  The items come out oldest first,
      exactly the queue's contents, and the queue is left empty. */
  method Drain<T(0)>(q: LockFreeQueue<T>, prior: T) returns (popped: seq<T>)
    requires q.Valid()
    modifies q`head, q`contents
    ensures q.Valid() && q.tail == old(q.tail)
    ensures popped == old(q.contents)
    ensures q.contents == [] && q.head == q.tail
  {
    popped := [];
    var last := prior;
    while true
      invariant q.Valid() && q.tail == old(q.tail)
      invariant popped + q.contents == old(q.contents)
      decreases |q.contents|
    {
      ghost var before := q.contents;
      var ok, item := q.Pop(last);
      if !ok {
        assert q.contents == before == [];
        break;
      }
      assert before == [item] + q.contents;
      popped := popped + [item];
      last := item;
    }
    EmptyAndFull(q.buffer[..], q.head, q.tail);
  }

  /** A fresh queue of `n` slots: push a batch, then drain it.  The first
      n - 1 items are accepted and come back in push order, field for
      field; every later push is rejected.  One more pop afterwards fails
      and leaves the caller's variable as it was. */
  method PushThenDrain<T(0)>(n: nat, items: seq<T>, prior: T)
    returns (results: seq<bool>, popped: seq<T>, lastOk: bool, last: T)
    requires 0 < n
    ensures |results| == |items|
    ensures forall i :: 0 <= i < |items| ==> results[i] == (i < n - 1)
    ensures popped == items[..Min(|items|, n - 1)]
    ensures |items| < n ==> popped == items
    ensures !lastOk && last == prior
  {
    var q := new LockFreeQueue<T>(n);
    results := PushAll(q, items);
    popped := Drain(q, prior);
    lastOk, last := q.Pop(prior);
  }

  /** A fresh queue is empty: `pop` fails and leaves the caller's
      variable as it was. */
  method EmptyQueuePop<T(0)>(n: nat, prior: T) returns (ok: bool, item: T)
    requires 0 < n
    ensures !ok && item == prior
  {
    var q := new LockFreeQueue<T>(n);
    ok, item := q.Pop(prior);
  }

  /** One push and one pop on a queue of ten slots return the pushed item. */
  method BasicPushPop<T(0)>(order: T, prior: T) returns (pushed: bool, ok: bool, item: T)
    ensures pushed && ok && item == order
  {
    var q := new LockFreeQueue<T>(10);
    pushed := q.Push(order);
    ok, item := q.Pop(prior);
  }

  /** Three slots hold two items: the third and fourth pushes are rejected. */
  method FullQueuePush<T(0)>(o1: T, o2: T, o3: T, o4: T)
    returns (r1: bool, r2: bool, r3: bool, r4: bool)
    ensures r1 && r2 && !r3 && !r4
  {
    var q := new LockFreeQueue<T>(3);
    r1 := q.Push(o1);
    r2 := q.Push(o2);
    r3 := q.Push(o3);
    r4 := q.Push(o4);
  }

  /** A queue of three slots: two pushes fill it, a pop returns the
      oldest item and makes room for exactly one more push, which is
      stored in the last slot and wraps `tail` round to index 0. */
  method CircularWrap<T(0)>(o1: T, o2: T, o3: T, o4: T, prior: T)
    returns (r1: bool, r2: bool, r3: bool, r4: bool, ok: bool, item: T,
             slot: nat, r5: bool, wrappedTail: nat, r6: bool, rest: seq<T>)
    ensures r1 && r2 && !r3 && !r4
    ensures ok && item == o1
    ensures r5 && slot == 2 && wrappedTail == 0 && !r6
    ensures rest == [o2, o4]
  {
    var q := new LockFreeQueue<T>(3);
    r1 := q.Push(o1);
    r2 := q.Push(o2);
    r3 := q.Push(o3);
    r4 := q.Push(o4);
    ok, item := q.Pop(prior);
    slot := q.tail;
    r5 := q.Push(o4);
    wrappedTail := q.tail;
    r6 := q.Push(o3);
    rest := Drain(q, prior);
  }

  /** A queue of one slot never accepts an item, so nothing can be popped. */
  method TinyQueue<T(0)>(o1: T, o2: T, prior: T)
    returns (r1: bool, r2: bool, ok1: bool, ok2: bool, item: T)
    ensures !r1 && !r2 && !ok1 && !ok2 && item == prior
  {
    var q := new LockFreeQueue<T>(1);
    r1 := q.Push(o1);
    r2 := q.Push(o2);
    ok1, item := q.Pop(prior);
    ok2, item := q.Pop(item);
  }

  /** On any full queue with more than one slot, one pop makes exactly one
      further push succeed, and no item is lost or reordered. */
  method RefillAfterPop<T(0)>(q: LockFreeQueue<T>, x: T, y: T, prior: T)
    returns (ok: bool, item: T, r1: bool, r2: bool)
    requires q.Valid() && 1 < q.buffer.Length
    requires |q.contents| == q.buffer.Length - 1
    modifies q`head, q`tail, q`contents, q.buffer
    ensures q.Valid()
    ensures ok && item == old(q.contents)[0]
    ensures r1 && !r2
    ensures q.contents == old(q.contents)[1..] + [x]
  {
    ok, item := q.Pop(prior);
    r1 := q.Push(x);
    r2 := q.Push(y);
  }
}
