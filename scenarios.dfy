/**
 * Clients of SingleWriterRingBuffer that use nothing but its contracts:
 * the behaviours the repository's tests exercise, proved for all inputs.
 */
module Scenarios {
  import opened Cursors
  import opened Fifo
  import opened RingBuffer

  /** Removes elements until the buffer reports empty; returns them in removal order. */
  method Drain<T>(b: SingleWriterRingBuffer<T>) returns (drained: seq<T>)
    requires b.Valid()
    modifies b, b.arena
    ensures b.Valid() && b.Contents == [] && drained == old(b.Contents)
    ensures b.constructed == old(b.constructed)
  {
    drained := [];
    var done := false;
    while !done
      invariant b.Valid() && b.constructed == old(b.constructed)
      invariant drained + b.Contents == old(b.Contents)
      invariant done ==> b.Contents == []
      decreases |b.Contents| + if done then 0 else 1
    {
      var popped := b.TryPopBack();
      match popped
      case Some(v) =>
        assert drained + [v] + b.Contents == old(b.Contents);
        drained := drained + [v];
      case None =>
        done := true;
    }
  }

  /** Writes every element of `xs`, in order, with emplace_front; head moves on by one slot per write. */
  method PushAll<T>(b: SingleWriterRingBuffer<T>, xs: seq<T>)
    requires b.Valid()
    modifies b, b.arena
    ensures b.Valid() && b.Contents == Latest(old(b.Contents) + xs, b.last)
    ensures b.constructed == old(b.constructed) + |xs|
    ensures b.head == Steps(old(b.head), |xs|, b.last)
  {
    var i := 0;
    while i < |xs|
      invariant i <= |xs|
      invariant b.Valid() && b.Contents == InsertAll(old(b.Contents), xs[..i], b.last)
      invariant b.constructed == old(b.constructed) + i
      invariant b.head == Steps(old(b.head), i, b.last)
    {
      var _ := b.EmplaceFront(xs[i], false, false);
      assert xs[..i + 1][..i] == xs[..i];
      i := i + 1;
    }
    assert xs[..|xs|] == xs;
    InsertAllKeepsLatest(old(b.Contents), xs, b.last);
  }

  /**
   * A buffer of capacity C fed `xs` and then drained hands out exactly the
   * latest C values of `xs`, in insertion order, and then reports empty; the
   * older ones were evicted unseen. Capacity 0 is refused.
   */
  method InsertThenDrain<T>(capacity: nat, xs: seq<T>) returns (r: Result<seq<T>, Error>)
    ensures capacity == 0 ==> r == Failure(InvalidArgument)
    ensures capacity != 0 ==> r == Success(Latest(xs, capacity))
  {
    var created := SingleWriterRingBuffer<T>.New(capacity);
    if created.Failure? {
      return Failure(created.error);
    }
    var b := created.value;
    PushAll(b, xs);
    assert [] + xs == xs;
    var drained := Drain(b);
    return Success(drained);
  }

  /**
   * Any run of inserts into a fresh buffer followed by its teardown destroys
   * as many elements as it constructed, one per insert, whether or not
   * elements were evicted on the way.
   */
  method InsertThenDestroy<T>(capacity: nat, xs: seq<T>) returns (ok: bool, ghost constructions: nat, ghost destructions: nat)
    ensures ok <==> capacity != 0
    ensures ok ==> constructions == |xs| && destructions == |xs|
  {
    var created := SingleWriterRingBuffer<T>.New(capacity);
    if created.Failure? {
      return false, 0, 0;
    }
    var b := created.value;
    var i := 0;
    while i < |xs|
      invariant i <= |xs|
      invariant fresh(b) && fresh(b.arena) && b.Valid() && b.constructed == i
    {
      var _ := b.EmplaceFront(xs[i], false, false);
      i := i + 1;
    }
    b.Destroy();
    return true, b.constructed, b.destroyed;
  }

  /**
   * Capacity 5: five inserts, two removals, two more inserts, then a drain.
   * Before the drain the cursors wrap: `wrapped` is (tail, head) at that
   * point, (2, 1). The drain yields the five remaining values in FIFO order.
   */
  method WrappedDrain<T>(x0: T, x1: T, x2: T, x3: T, x4: T, x5: T, x6: T)
    returns (first2: seq<T>, wrapped: (nat, nat), rest: seq<T>)
    ensures first2 == [x0, x1]
    ensures wrapped == (2, 1) && wrapped.0 > wrapped.1
    ensures rest == [x2, x3, x4, x5, x6]
  {
    var created := SingleWriterRingBuffer<T>.New(5);
    var b := created.value;
    PushAll(b, [x0, x1, x2, x3, x4]);
    var p0 := b.TryPopBack();
    var p1 := b.TryPopBack();
    first2 := [p0.value, p1.value];
    assert b.Contents == [x2, x3, x4];
    PushAll(b, [x5, x6]);
    assert b.Contents == [x2, x3, x4] + [x5, x6];
    wrapped := (b.tail, b.head);
    rest := Drain(b);
  }
}
