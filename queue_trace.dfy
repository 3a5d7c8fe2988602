/** Any sequence of `push` and `pop` calls on the ring buffer behaves like
    a plain first-in first-out queue that holds at most N - 1 items:
    the same calls succeed, the same items come out in the same order,
    and the same items are left queued, however often the indices wrap. */
module QueueTrace {
  import opened OrderQueue

  datatype Op<T> = PushOp(x: T) | PopOp

  /** What a call returns: `push`'s flag, or the item `pop` produced. */
  datatype Reply<T> = PushReply(ok: bool) | PopReply(item: Option<T>)

  /** One call on the reference queue: a sequence, oldest first, of at
      most `cap` items. */
  function FifoStep<T>(q: seq<T>, cap: nat, op: Op<T>): (res: (seq<T>, Reply<T>))
    ensures |q| <= cap ==> |res.0| <= cap
  {
    match op
    case PushOp(x) =>
      if |q| < cap then (q + [x], PushReply(true)) else (q, PushReply(false))
    case PopOp =>
      if q == [] then (q, PopReply(None)) else (q[1..], PopReply(Some(q[0])))
  }

  /** The reference queue running a sequence of calls. */
  function FifoRun<T>(q: seq<T>, cap: nat, ops: seq<Op<T>>): (res: (seq<T>, seq<Reply<T>>))
    ensures |res.1| == |ops|
    ensures |q| <= cap ==> |res.0| <= cap
    decreases |ops|
  {
    if ops == [] then (q, [])
    else
      var step := FifoStep(q, cap, ops[0]);
      var rest := FifoRun(step.0, cap, ops[1..]);
      (rest.0, [step.1] + rest.1)
  }

  /** One call on the ring buffer: a `PushStep` or a `PopStep`. */
  function RingStep<T>(r: Ring<T>, op: Op<T>): (res: (Ring<T>, Reply<T>))
    requires r.Wf()
    ensures res.0.Wf() && |res.0.buf| == |r.buf|
  {
    match op
    case PushOp(x) =>
      var step := PushStep(r, x);
      (step.0, PushReply(step.1))
    case PopOp =>
      var step := PopStep(r);
      (step.0, PopReply(step.1))
  }

  /** The ring buffer running a sequence of calls. */
  function RingRun<T>(r: Ring<T>, ops: seq<Op<T>>): (res: (Ring<T>, seq<Reply<T>>))
    requires r.Wf()
    ensures res.0.Wf() && |res.0.buf| == |r.buf|
    ensures |res.1| == |ops|
    decreases |ops|
  {
    if ops == [] then (r, [])
    else
      var step := RingStep(r, ops[0]);
      var rest := RingRun(step.0, ops[1..]);
      (rest.0, [step.1] + rest.1)
  }

  /** One call on a ring of N slots holding `q` answers as the reference
      queue of capacity N - 1 holding `q` does, and leaves the same items
      queued. */
  lemma StepMatchesFifo<T>(r: Ring<T>, q: seq<T>, op: Op<T>)
    requires r.Wf() && r.Items() == q
    ensures RingStep(r, op).1 == FifoStep(q, |r.buf| - 1, op).1
    ensures RingStep(r, op).0.Items() == FifoStep(q, |r.buf| - 1, op).0
  {
  }

  /** The ring buffer of N slots refines the reference queue of capacity
      N - 1: started on the same items, every reply agrees, and so do the
      items left queued. */
  lemma {:induction false} RingMatchesFifo<T>(r: Ring<T>, q: seq<T>, ops: seq<Op<T>>)
    requires r.Wf() && r.Items() == q
    ensures RingRun(r, ops).1 == FifoRun(q, |r.buf| - 1, ops).1
    ensures RingRun(r, ops).0.Items() == FifoRun(q, |r.buf| - 1, ops).0
    decreases |ops|
  {
    if ops != [] {
      var step := RingStep(r, ops[0]);
      var fstep := FifoStep(q, |r.buf| - 1, ops[0]);
      StepMatchesFifo(r, q, ops[0]);
      RingMatchesFifo(step.0, fstep.0, ops[1..]);
    }
  }

  function Pushes<T>(items: seq<T>): (ops: seq<Op<T>>)
    ensures |ops| == |items|
  {
    if items == [] then [] else [PushOp(items[0])] + Pushes(items[1..])
  }

  function Pops<T>(k: nat): (ops: seq<Op<T>>)
    ensures |ops| == k
  {
    if k == 0 then [] else [PopOp] + Pops(k - 1)
  }

  /** The replies of k accepted pushes. */
  function Accepted<T>(k: nat): (rs: seq<Reply<T>>)
    ensures |rs| == k
    ensures forall i :: 0 <= i < k ==> rs[i] == PushReply(true)
  {
    if k == 0 then [] else [PushReply(true)] + Accepted(k - 1)
  }

  /** The replies of k pops from a queue holding `q`: its items in
      order, then one empty reply for each pop beyond them. */
  function Drained<T>(q: seq<T>, k: nat): (rs: seq<Reply<T>>)
    ensures |rs| == k
    ensures forall i :: 0 <= i < k ==>
              rs[i] == PopReply(if i < |q| then Some(q[i]) else None)
  {
    if k == 0 then []
    else [PopReply(if q == [] then None else Some(q[0]))] +
         Drained(if q == [] then q else q[1..], k - 1)
  }

  /** Pushing a batch that fits into the reference queue accepts every
      item and appends the batch in order. */
  lemma {:induction false} FifoPushes<T>(q: seq<T>, cap: nat, items: seq<T>, more: seq<Op<T>>)
    requires |q| + |items| <= cap
    ensures FifoRun(q, cap, Pushes(items) + more).0 == FifoRun(q + items, cap, more).0
    ensures FifoRun(q, cap, Pushes(items) + more).1 ==
            Accepted<T>(|items|) + FifoRun(q + items, cap, more).1
    decreases |items|
  {
    var ops := Pushes(items) + more;
    if items == [] {
      assert ops == more && q + items == q;
    } else {
      assert ops[0] == PushOp(items[0]);
      assert ops[1..] == Pushes(items[1..]) + more;
      FifoPushes(q + [items[0]], cap, items[1..], more);
      assert q + [items[0]] + items[1..] == q + items;
      var rest := FifoRun(q + [items[0]], cap, ops[1..]);
      assert FifoRun(q, cap, ops) == (rest.0, [PushReply(true)] + rest.1);
    }
  }

  /** Popping k times from the reference queue returns its first k items
      in order, then reports empty. */
  lemma {:induction false} FifoPops<T>(q: seq<T>, cap: nat, k: nat)
    requires |q| <= k
    ensures FifoRun(q, cap, Pops(k)).0 == []
    ensures FifoRun(q, cap, Pops(k)).1 == Drained(q, k)
    decreases k
  {
    var ops: seq<Op<T>> := Pops(k);
    if k > 0 {
      assert ops[0] == PopOp;
      assert ops[1..] == Pops(k - 1);
      FifoPops(if q == [] then q else q[1..], cap, k - 1);
    }
  }

  /** The reference queue's round trip: pushing at most `cap` items into
      an empty queue and popping once more than that accepts every push,
      yields the items in push order, then reports empty. */
  lemma FifoRoundTrip<T>(cap: nat, items: seq<T>)
    requires |items| <= cap
    ensures FifoRun([], cap, Pushes(items) + Pops(|items| + 1)) ==
            ([], Accepted<T>(|items|) + Drained(items, |items| + 1))
  {
    var empty: seq<T> := [];
    var more: seq<Op<T>> := Pops(|items| + 1);
    FifoPushes(empty, cap, items, more);
    assert empty + items == items;
    FifoPops(items, cap, |items| + 1);
  }

  /** FIFO round trip on an empty ring of N slots, such as a new one:
      pushing up to N - 1 items and then popping once more than that
      accepts every push, returns every item in push order, field for
      field, and finally reports empty. */
  lemma EmptyRingRoundTrip<T>(r: Ring<T>, items: seq<T>)
    requires r.Wf() && r.head == r.tail && |items| < |r.buf|
    ensures RingRun(r, Pushes(items) + Pops(|items| + 1)).1 ==
            Accepted<T>(|items|) + Drained(items, |items| + 1)
    ensures RingRun(r, Pushes(items) + Pops(|items| + 1)).0.Items() == []
  {
    var ops := Pushes(items) + Pops(|items| + 1);
    EmptyAndFull(r.buf, r.head, r.tail);
    RingMatchesFifo(r, r.Items(), ops);
    FifoRoundTrip(|r.buf| - 1, items);
  }
}
