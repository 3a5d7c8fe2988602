/** A model of the bounded circular FIFO `LockFreeQueue<T, N>`.
    The queue is a fixed buffer of N slots with two indices in [0, N):
    `head` (next slot to read) and `tail` (next slot to write).  The
    items held are the slots from `head` up to, not including, `tail`,
    going round modulo N.  One slot is always left empty, so that
    `head == tail` means empty and `(tail + 1) % N == head` means full;
    the queue therefore holds at most N - 1 items.

    The C++ class reads and writes `head` and `tail` with atomic loads and
    stores; this model is sequential and treats them as plain fields. */
module OrderQueue {

  /** Number of items between `head` and `tail` in a ring of `n` slots. */
  function Count(head: nat, tail: nat, n: nat): (c: nat)
    requires 0 < n && head < n && tail < n
    ensures c < n
    ensures c == 0 <==> head == tail
    ensures c == n - 1 <==> Next(tail, n) == head
    ensures Slot(head, c, n) == tail
  {
    if head <= tail then tail - head else n - head + tail
  }

  /** `Count` is the item count `(tail - head + N) % N`. */
  lemma CountIsMod(head: nat, tail: nat, n: nat)
    requires 0 < n && head < n && tail < n
    ensures Count(head, tail, n) == (tail - head + n) % n
  {
  }

  /** The slot after `i` in a ring of `n` slots. */
  function Next(i: nat, n: nat): (j: nat)
    requires i < n
    ensures j < n
  {
    if i + 1 == n then 0 else i + 1
  }

  /** The slot `i` places after `head` in a ring of `n` slots. */
  function Slot(head: nat, i: nat, n: nat): (j: nat)
    requires head < n && i < n
    ensures j < n
  {
    if head + i < n then head + i else head + i - n
  }

  /** `Next` is the C++ advance `(i + 1) % N`. */
  lemma NextIsMod(i: nat, n: nat)
    requires i < n
    ensures Next(i, n) == (i + 1) % n
  {
  }

  /** `Slot` is `(head + i) % N`. */
  lemma SlotIsMod(head: nat, i: nat, n: nat)
    requires head < n && i < n
    ensures Slot(head, i, n) == (head + i) % n
  {
  }

  /** The items of a ring buffer, oldest first: slot `head`, then the
      slots after it going round the buffer, up to but not including
      `tail`. */
  function Window<T>(buf: seq<T>, head: nat, tail: nat): (w: seq<T>)
    requires head < |buf| && tail < |buf|
    decreases Count(head, tail, |buf|)
  {
    if head == tail then [] else [buf[head]] + Window(buf, Next(head, |buf|), tail)
  }

  /** The window holds exactly `Count` items, and its i-th item is the
      slot i places after `head`, going round the buffer. */
  lemma {:induction false} WindowAt<T>(buf: seq<T>, head: nat, tail: nat)
    requires head < |buf| && tail < |buf|
    ensures |Window(buf, head, tail)| == Count(head, tail, |buf|)
    ensures forall i :: 0 <= i < |Window(buf, head, tail)| ==>
              Window(buf, head, tail)[i] == buf[Slot(head, i, |buf|)]
    decreases Count(head, tail, |buf|)
  {
    if head != tail {
      var n := |buf|;
      WindowAt(buf, Next(head, n), tail);
      var w := Window(buf, head, tail);
      forall i | 1 <= i < |w|
        ensures w[i] == buf[Slot(head, i, n)]
      {
        assert w[i] == Window(buf, Next(head, n), tail)[i - 1];
        assert Slot(Next(head, n), i - 1, n) == Slot(head, i, n);
      }
    }
  }

  /** The window is empty exactly when the indices meet, and it holds
      N - 1 items (the most it can) exactly when `tail` is one slot
      behind `head`. */
  lemma EmptyAndFull<T>(buf: seq<T>, head: nat, tail: nat)
    requires head < |buf| && tail < |buf|
    ensures Window(buf, head, tail) == [] <==> head == tail
    ensures |Window(buf, head, tail)| == |buf| - 1 <==> Next(tail, |buf|) == head
    ensures |Window(buf, head, tail)| < |buf|
  {
    WindowAt(buf, head, tail);
    NextIsMod(tail, |buf|);
  }

  /** Storing `x` at `tail` and advancing `tail` appends `x` to the
      window, provided `tail` does not run into `head`. */
  lemma {:induction false} WindowPush<T>(buf: seq<T>, head: nat, tail: nat, x: T)
    requires head < |buf| && tail < |buf|
    requires Next(tail, |buf|) != head
    ensures Window(buf[tail := x], head, Next(tail, |buf|)) == Window(buf, head, tail) + [x]
    decreases Count(head, tail, |buf|)
  {
    var n := |buf|;
    var stored := buf[tail := x];
    if head == tail {
      assert Window(stored, Next(tail, n), Next(tail, n)) == [];
    } else {
      WindowPush(buf, Next(head, n), tail, x);
      assert Window(stored, head, Next(tail, n)) ==
             [buf[head]] + Window(stored, Next(head, n), Next(tail, n));
    }
  }

  /** A non-empty window starts at slot `head`, and advancing `head`
      drops exactly that oldest item; the buffer is not written. */
  lemma WindowPop<T>(buf: seq<T>, head: nat, tail: nat)
    requires head < |buf| && tail < |buf|
    requires head != tail
    ensures Window(buf, head, tail) != []
    ensures Window(buf, head, tail)[0] == buf[head]
    ensures Window(buf, Next(head, |buf|), tail) == Window(buf, head, tail)[1..]
  {
    assert Window(buf, head, tail) == [buf[head]] + Window(buf, Next(head, |buf|), tail);
  }

  /** Wrap-around: on a full buffer of more than one slot, advancing
      `head` once lets exactly one store at `tail` through; the window then
      holds the old items but the first, followed by `x`, and is full again. */
  lemma RefillWindow<T>(buf: seq<T>, head: nat, tail: nat, x: T)
    requires 1 < |buf| && head < |buf| && tail < |buf|
    requires Next(tail, |buf|) == head
    ensures Next(tail, |buf|) != Next(head, |buf|)
    ensures Window(buf[tail := x], Next(head, |buf|), Next(tail, |buf|)) ==
            Window(buf, head, tail)[1..] + [x]
    ensures Next(Next(tail, |buf|), |buf|) == Next(head, |buf|)
  {
    var n := |buf|;
    EmptyAndFull(buf, head, tail);
    WindowPop(buf, head, tail);
    WindowPush(buf, Next(head, n), tail, x);
  }

  datatype Option<T> = None | Some(value: T)

  /** The queue's state as a value: the buffer and the two indices. */
  datatype Ring<T> = Ring(buf: seq<T>, head: nat, tail: nat)
  {
    ghost predicate Wf() {
      0 < |buf| && head < |buf| && tail < |buf|
    }

    /** The queued items, oldest first. */
    ghost function Items(): (items: seq<T>)
      requires Wf()
    {
      Window(buf, head, tail)
    }
  }

  /** One `push`: rejected when the advanced `tail` would meet `head`,
      otherwise the item is stored at `tail` and `tail` advances. */
  function PushStep<T>(r: Ring<T>, x: T): (res: (Ring<T>, bool))
    requires r.Wf()
    ensures res.0.Wf() && res.0.head == r.head && |res.0.buf| == |r.buf|
    ensures res.1 <==> |r.Items()| < |r.buf| - 1
    ensures res.0.Items() == if res.1 then r.Items() + [x] else r.Items()
    ensures !res.1 ==> res.0 == r
  {
    EmptyAndFull(r.buf, r.head, r.tail);
    if Next(r.tail, |r.buf|) == r.head then
      (r, false)
    else
      WindowPush(r.buf, r.head, r.tail, x);
      (Ring(r.buf[r.tail := x], r.head, Next(r.tail, |r.buf|)), true)
  }

  /** One `pop`: fails when `head == tail`, otherwise yields slot `head`
      and advances `head`; the buffer is never written. */
  function PopStep<T>(r: Ring<T>): (res: (Ring<T>, Option<T>))
    requires r.Wf()
    ensures res.0.Wf() && res.0.buf == r.buf && res.0.tail == r.tail
    ensures res.1.None? <==> r.Items() == []
    ensures res.1.Some? ==> res.1.value == r.Items()[0] && res.0.Items() == r.Items()[1..]
    ensures res.1.None? ==> res.0 == r
  {
    EmptyAndFull(r.buf, r.head, r.tail);
    if r.head == r.tail then
      (r, None)
    else
      WindowPop(r.buf, r.head, r.tail);
      (Ring(r.buf, Next(r.head, |r.buf|), r.tail), Some(r.buf[r.head]))
  }

  /** `LockFreeQueue<T, N>`: the buffer of N slots and the two indices.
      A fresh buffer holds unspecified values; no slot is read before
      it is written. */
  class LockFreeQueue<T(0)> {
    const buffer: array<T>
    var head: nat
    var tail: nat
    /** The items in the queue, oldest first. */
    ghost var contents: seq<T>

    /** `contents` is the window from `head` to `tail`, which never
        fills all N slots. */
    ghost predicate Valid()
      reads this, buffer
    {
      0 < buffer.Length && head < buffer.Length && tail < buffer.Length &&
      contents == Window(buffer[..], head, tail) &&
      |contents| < buffer.Length
    }

    /** The capacity N; `push` and `pop` divide by it, so it must be positive. */
    constructor (n: nat)
      requires 0 < n
      ensures Valid() && fresh(buffer)
      ensures buffer.Length == n
      ensures head == 0 && tail == 0 && contents == []
    {
      buffer := new T[n];
      head, tail := 0, 0;
      contents := [];
    }

    /** Appends `item` unless the queue is full, in which case nothing changes. */
    method Push(item: T) returns (ok: bool)
      requires Valid()
      modifies this`tail, this`contents, buffer
      ensures Valid()
      ensures ok <==> (old(tail) + 1) % buffer.Length != old(head)
      ensures ok <==> |old(contents)| < buffer.Length - 1
      ensures buffer.Length == 1 ==> !ok
      ensures head == old(head)
      ensures ok ==> (buffer[..] == old(buffer[..])[old(tail) := item] &&
                      tail == (old(tail) + 1) % buffer.Length &&
                      contents == old(contents) + [item])
      ensures !ok ==> (buffer[..] == old(buffer[..]) &&
                       tail == old(tail) &&
                       contents == old(contents))
      ensures (Ring(buffer[..], head, tail), ok) ==
              PushStep(Ring(old(buffer[..]), old(head), old(tail)), item)
    {
      var t := tail;
      var h := head;
      NextIsMod(t, buffer.Length);
      EmptyAndFull(buffer[..], h, t);
      if (t + 1) % buffer.Length == h {
        return false;
      }
      WindowPush(buffer[..], h, t, item);
      buffer[t] := item;
      tail := (t + 1) % buffer.Length;
      contents := contents + [item];
      ok := true;
    }

    /** Removes and returns the oldest item.  The C++ method writes it into
        the caller's variable; on an empty queue that variable is left as
        it was, which `prior` stands for here. */
    method Pop(prior: T) returns (ok: bool, item: T)
      requires Valid()
      modifies this`head, this`contents
      ensures Valid()
      ensures ok <==> old(head) != tail
      ensures ok <==> old(contents) != []
      ensures tail == old(tail)
      ensures ok ==> (item == old(contents)[0] &&
                      item == buffer[old(head)] &&
                      head == (old(head) + 1) % buffer.Length &&
                      contents == old(contents)[1..])
      ensures !ok ==> (item == prior &&
                       head == old(head) &&
                       contents == old(contents))
      ensures (Ring(buffer[..], head, tail), if ok then Some(item) else None) ==
              PopStep(Ring(buffer[..], old(head), old(tail)))
    {
      var h := head;
      var t := tail;
      NextIsMod(h, buffer.Length);
      EmptyAndFull(buffer[..], h, t);
      if h == t {
        return false, prior;
      }
      WindowPop(buffer[..], h, t);
      item := buffer[h];
      head := (h + 1) % buffer.Length;
      contents := contents[1..];
      ok := true;
    }
  }
}
