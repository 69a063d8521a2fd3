/**
 * SingleWriterRingBuffer<T>: a fixed-capacity ring buffer whose single
 * producer never blocks and overwrites the oldest element when full.
 *
 * The operations are modelled as sequential steps. Pointers into the arena
 * become slot indices 0 (`first`) .. `last`; the raw storage becomes an array
 * of slots that are either raw memory or hold a constructed element. Element
 * constructors, moves and destructors appear only as ghost counters and as
 * explicit "this call throws" inputs.
 */
module RingBuffer {
  import opened Cursors
  import opened Fifo

  datatype Option<T> = None | Some(value: T)

  datatype Result<R, E> = Success(value: R) | Failure(error: E)

  /** What the buffer can throw, or let through from the element type. */
  datatype Error =
    | InvalidArgument   // std::invalid_argument from allocate(0)
    | ConstructorThrew  // the element constructor run by emplace_front
    | MoveThrew         // the move out of the tail slot in try_pop_back
    | DestructorThrew   // an element destructor

  /** One slot of the arena: uninitialised memory, or a constructed element. */
  datatype Slot<T> = Raw | Live(value: T)

  class SingleWriterRingBuffer<T> {
    /** The storage `first` points to: capacity + 1 slots. */
    const arena: array<Slot<T>>
    const first: nat := 0
    const last: nat
    /** The slot the producer writes next. */
    var head: nat
    /** The slot of the oldest live element. */
    var tail: nat

    /** The live elements, oldest first. */
    ghost var Contents: seq<T>
    /** How many element constructors and destructors have run on the arena. */
    ghost var constructed: nat
    ghost var destroyed: nat
    /** Whether the arena has been released. */
    ghost var freed: bool

    /**
     * The object invariant: the live slots are exactly those of the cyclic
     * range [tail, head), they hold Contents in order from `tail`, and every
     * element constructed so far and not destroyed is one of them.
     */
    ghost predicate Valid()
      reads this, arena
    {
      && !freed
      && 1 <= last
      && arena.Length == last + 1
      && head <= last && tail <= last
      && (forall i :: 0 <= i <= last ==> (arena[i].Live? <==> InLive(tail, head, last, i)))
      && |Contents| == LiveCount(tail, head, last)
      && (forall k :: 0 <= k < |Contents| ==> arena[Position(tail, k, last)] == Live(Contents[k]))
      && constructed == destroyed + |Contents|
    }

    /** Obtains uninitialised storage for capacity + 1 elements; no element is constructed. */
    static method Allocate(capacity: nat) returns (r: Result<array<Slot<T>>, Error>)
      ensures capacity == 0 <==> r.Failure?
      ensures r.Failure? ==> r.error == InvalidArgument
      ensures r.Success? ==> fresh(r.value) && r.value.Length == capacity + 1
      ensures r.Success? ==> forall i :: 0 <= i < r.value.Length ==> r.value[i] == Raw
    {
      if capacity == 0 {
        return Failure(InvalidArgument);
      }
      var buffer := new Slot<T>[capacity + 1](_ => Raw);
      return Success(buffer);
    }

    /** The member initialisers, once allocate has returned `buffer`. */
    constructor FromArena(buffer: array<Slot<T>>, capacity: nat)
      requires 1 <= capacity && buffer.Length == capacity + 1
      requires forall i :: 0 <= i < buffer.Length ==> buffer[i] == Raw
      ensures Valid()
      ensures arena == buffer && last == first + capacity && head == first && tail == first
      ensures Contents == [] && constructed == 0 && destroyed == 0
    {
      arena := buffer;
      last := capacity;
      head := 0;
      tail := 0;
      Contents := [];
      constructed, destroyed, freed := 0, 0, false;
    }

    /**
     * SingleWriterRingBuffer(capacity): fails with invalid_argument for
     * capacity 0; otherwise an empty buffer over a fresh arena of capacity + 1
     * slots, with head == tail == first and no element constructed.
     */
    static method New(capacity: nat) returns (r: Result<SingleWriterRingBuffer<T>, Error>)
      ensures capacity == 0 <==> r.Failure?
      ensures r.Failure? ==> r.error == InvalidArgument
      ensures r.Success? ==>
        && fresh(r.value) && fresh(r.value.arena) && r.value.Valid()
        && r.value.arena.Length == capacity + 1 && r.value.last == r.value.first + capacity
        && r.value.head == r.value.first && r.value.tail == r.value.first
        && r.value.Contents == [] && r.value.constructed == 0 && r.value.destroyed == 0
    {
      var storage := Allocate(capacity);
      if storage.Failure? {
        return Failure(storage.error);
      }
      var buffer := new SingleWriterRingBuffer.FromArena(storage.value, capacity);
      return Success(buffer);
    }

    /** Placement-new of `x` into slot `p`, which must be raw memory. */
    method ConstructAt(p: nat, x: T)
      requires p < arena.Length && arena[p] == Raw
      modifies arena, this`constructed
      ensures constructed == old(constructed) + 1
      ensures arena[p] == Live(x)
      ensures forall i :: 0 <= i < arena.Length && i != p ==> arena[i] == old(arena[i])
    {
      arena[p] := Live(x);
      constructed := constructed + 1;
    }

    /** The destructor call on slot `p`, which must hold a live element. */
    method DestroyAt(p: nat)
      requires p < arena.Length && arena[p].Live?
      modifies arena, this`destroyed
      ensures destroyed == old(destroyed) + 1
      ensures arena[p] == Raw
      ensures forall i :: 0 <= i < arena.Length && i != p ==> arena[i] == old(arena[i])
    {
      arena[p] := Raw;
      destroyed := destroyed + 1;
    }

    /**
     * The eviction step of emplace_front, once its compare-and-swap has found
     * `tail == overlap`: tail moves to `nextTail` and the oldest element, in
     * slot `overlap`, is destroyed.
     */
    method Evict(overlap: nat, nextTail: nat)
      requires Valid() && tail == overlap && tail != head && nextTail == Next(overlap, last)
      modifies this, arena
      ensures Valid()
      ensures tail == nextTail && head == old(head)
      ensures Contents == old(Contents)[1..]
      ensures constructed == old(constructed) && destroyed == old(destroyed) + 1
      ensures arena[overlap] == Raw
      ensures forall i :: 0 <= i <= last && i != overlap ==> arena[i] == old(arena[i])
    {
      DropOldest(tail, head, last);
      tail := nextTail;
      DestroyAt(overlap);
      Contents := Contents[1..];
    }

    /**
     * The rest of emplace_front once the slot after head is free: `x` is
     * constructed in the head slot and head moves on to `nextHead`.
     */
    method Publish(x: T, nextHead: nat)
      requires Valid() && nextHead == Next(head, last) && tail != nextHead
      modifies this, arena
      ensures Valid()
      ensures head == nextHead && tail == old(tail)
      ensures Contents == old(Contents) + [x]
      ensures constructed == old(constructed) + 1 && destroyed == old(destroyed)
      ensures old(arena[head]) == Raw && arena[old(head)] == Live(x)
      ensures forall i :: 0 <= i <= last && i != old(head) ==> arena[i] == old(arena[i])
    {
      AddYoungest(tail, head, last);
      ConstructAt(head, x);
      Contents := Contents + [x];
      head := nextHead;
    }

    /**
     * emplace_front: when the slot after head holds the oldest element
     * (the buffer is full), that element is destroyed and tail moves past it;
     * then `x` is constructed in the old head slot, which is always raw, and
     * head moves on. If the evicted element's destructor throws
     * (`evictThrows`, which only matters when there is an eviction), or the
     * element constructor throws (`ctorThrows`), the eviction stands, nothing
     * is constructed and head stays where it was; the destructor's exception
     * comes first, since it leaves before the constructor runs.
     */
    method EmplaceFront(x: T, evictThrows: bool, ctorThrows: bool) returns (thrown: Option<Error>)
      requires Valid()
      modifies this, arena
      ensures Valid()
      ensures old(arena[head]) == Raw
      ensures old(tail == Next(head, last)) <==> old(|Contents|) == last
      ensures tail == if old(tail == Next(head, last)) then old(Next(Next(head, last), last)) else old(tail)
      ensures destroyed == old(destroyed) + if old(tail == Next(head, last)) then 1 else 0
      ensures forall i :: 0 <= i <= last && i != old(head) && i != old(Next(head, last)) ==>
                arena[i] == old(arena[i])
      ensures thrown == if old(tail == Next(head, last)) && evictThrows then Some(DestructorThrew)
                        else if ctorThrows then Some(ConstructorThrew)
                        else None
      ensures thrown == None ==>
        && head == old(Next(head, last)) && head != tail
        && arena[old(head)] == Live(x)
        && constructed == old(constructed) + 1
        && Contents == Overwrite(old(Contents), x, last)
      ensures thrown != None ==>
        && head == old(head) && arena[head] == Raw
        && constructed == old(constructed)
        && Contents == if old(|Contents|) == last then old(Contents)[1..] else old(Contents)
    {
      EvictIffFull(tail, head, last);
      var currentHead := head;
      var (nextHead, nextTail) := Advance(currentHead, last);
      var overlap := nextHead;
      // compare_exchange_strong(overlap, next_tail) on tail
      if tail == overlap {
        Evict(overlap, nextTail);
        if evictThrows {
          return Some(DestructorThrew);
        }
      }
      if ctorThrows {
        return Some(ConstructorThrew);
      }
      Publish(x, nextHead);
      return None;
    }

    /** push_front(const T &) and push_front(T &&): both forward to emplace_front, with its whole effect. */
    method PushFront(value: T, evictThrows: bool, ctorThrows: bool) returns (thrown: Option<Error>)
      requires Valid()
      modifies this, arena
      ensures Valid()
      ensures old(arena[head]) == Raw
      ensures old(tail == Next(head, last)) <==> old(|Contents|) == last
      ensures tail == if old(tail == Next(head, last)) then old(Next(Next(head, last), last)) else old(tail)
      ensures destroyed == old(destroyed) + if old(tail == Next(head, last)) then 1 else 0
      ensures forall i :: 0 <= i <= last && i != old(head) && i != old(Next(head, last)) ==>
                arena[i] == old(arena[i])
      ensures thrown == if old(tail == Next(head, last)) && evictThrows then Some(DestructorThrew)
                        else if ctorThrows then Some(ConstructorThrew)
                        else None
      ensures thrown == None ==>
        && head == old(Next(head, last)) && head != tail
        && arena[old(head)] == Live(value)
        && constructed == old(constructed) + 1
        && Contents == Overwrite(old(Contents), value, last)
      ensures thrown != None ==>
        && head == old(head) && arena[head] == Raw
        && constructed == old(constructed)
        && Contents == if old(|Contents|) == last then old(Contents)[1..] else old(Contents)
    {
      thrown := EmplaceFront(value, evictThrows, ctorThrows);
    }

    /**
     * try_pop_back for element types whose move and destructor cannot throw:
     * on an empty buffer (tail == head) nothing changes and the result is
     * None; otherwise the oldest element is moved out, its slot destroyed and
     * tail advanced by one, head untouched.
     */
    method TryPopBack() returns (value: Option<T>)
      requires Valid()
      modifies this, arena
      ensures Valid()
      ensures value.Some? <==> old(tail != head)
      ensures head == old(head) && constructed == old(constructed)
      ensures old(tail == head) ==>
        && tail == old(tail) && destroyed == old(destroyed)
        && Contents == old(Contents) && unchanged(arena)
      ensures old(tail != head) ==>
        && value == Some(old(Contents)[0]) && old(arena[tail]) == Live(value.value)
        && tail == old(Next(tail, last)) && arena[old(tail)] == Raw
        && destroyed == old(destroyed) + 1
        && Contents == old(Contents)[1..]
        && forall i :: 0 <= i <= last && i != old(tail) ==> arena[i] == old(arena[i])
    {
      var currentTail := tail;  // the claim on tail succeeds at once
      var notEmpty := currentTail != head;
      if notEmpty {
        DropOldest(currentTail, head, last);
        tail := Next(currentTail, last);
        var moved := arena[currentTail].value;
        DestroyAt(currentTail);
        Contents := Contents[1..];
        return Some(moved);
      } else {
        tail := currentTail;
        return None;
      }
    }

    /**
     * try_pop_back for element types whose move or destructor may throw. If
     * the move throws, nothing was consumed: tail stays and the element stays
     * live. If the move succeeds and the destructor then throws, the element
     * has been handed out and tail is still advanced. The exception is passed
     * on in both cases, after tail has been released.
     */
    method TryPopBackRollback(moveThrows: bool, destroyThrows: bool) returns (value: Option<T>, thrown: Option<Error>)
      requires Valid()
      modifies this, arena
      ensures Valid()
      ensures head == old(head) && constructed == old(constructed)
      ensures old(tail == head) ==>
        && value == None && thrown == None
        && tail == old(tail) && destroyed == old(destroyed)
        && Contents == old(Contents) && unchanged(arena)
      ensures old(tail != head) && moveThrows ==>
        && value == None && thrown == Some(MoveThrew)
        && tail == old(tail) && destroyed == old(destroyed)
        && Contents == old(Contents) && unchanged(arena)
      ensures old(tail != head) && !moveThrows ==>
        && value == Some(old(Contents)[0]) && old(arena[tail]) == Live(value.value)
        && thrown == (if destroyThrows then Some(DestructorThrew) else None)
        && tail == old(Next(tail, last)) && arena[old(tail)] == Raw
        && destroyed == old(destroyed) + 1
        && Contents == old(Contents)[1..]
        && forall i :: 0 <= i <= last && i != old(tail) ==> arena[i] == old(arena[i])
    {
      var currentTail := tail;  // the claim on tail succeeds at once
      var nextTail := currentTail;
      var notEmpty := currentTail != head;
      var moved: Option<T> := None;
      if notEmpty {
        if moveThrows {
          tail := nextTail;
          return None, Some(MoveThrew);
        }
        moved := Some(arena[currentTail].value);
        DropOldest(currentTail, head, last);
        nextTail := Next(currentTail, last);
        DestroyAt(currentTail);
        Contents := Contents[1..];
        if destroyThrows {
          tail := nextTail;
          return moved, Some(DestructorThrew);
        }
      }
      tail := nextTail;
      return moved, None;
    }

    /**
     * One loop of destroy(): runs the destructors of slots lo .. hi - 1 in
     * increasing order. `calls` destructor calls were made before this loop;
     * the call with index `throwAt`, if it is among this loop's, throws and
     * ends the loop.
     */
    method DestroySlots(lo: nat, hi: nat, throwAt: Option<nat>, calls: nat) returns (calls': nat, thrown: Option<Error>)
      requires lo <= hi <= arena.Length
      requires forall i :: lo <= i < hi ==> arena[i].Live?
      requires throwAt.Some? ==> calls <= throwAt.value
      modifies arena, this`destroyed
      ensures var throws := throwAt.Some? && throwAt.value < calls + (hi - lo);
              var n := if throws then throwAt.value + 1 - calls else hi - lo;
              && calls' == calls + n
              && destroyed == old(destroyed) + n
              && thrown == (if throws then Some(DestructorThrew) else None)
              && forall i :: 0 <= i < arena.Length ==> arena[i] == if lo <= i < lo + n then Raw else old(arena[i])
    {
      calls', thrown := calls, None;
      var ptr := lo;
      while ptr < hi
        invariant lo <= ptr <= hi && calls' == calls + (ptr - lo)
        invariant destroyed == old(destroyed) + (ptr - lo)
        invariant throwAt.Some? ==> calls' <= throwAt.value
        invariant forall i :: 0 <= i < arena.Length ==> arena[i] == if lo <= i < ptr then Raw else old(arena[i])
      {
        var throws := throwAt == Some(calls');
        DestroyAt(ptr);
        calls' := calls' + 1;
        if throws {
          thrown := Some(DestructorThrew);
          return;
        }
        ptr := ptr + 1;
      }
    }

    /**
     * destroy() for element types whose destructor cannot throw: runs the
     * destructor of every live slot, [tail, head) or, when the range wraps,
     * [first, head) and then [tail, last], and releases the arena. Every
     * element ever constructed has then been destroyed.
     */
    method Destroy()
      requires Valid()
      modifies this, arena
      ensures freed
      ensures destroyed == old(destroyed) + old(|Contents|) && constructed == destroyed
      ensures forall i :: 0 <= i < arena.Length ==> arena[i] == Raw
    {
      var calls: nat, thrown: Option<Error>;
      if tail <= head {
        calls, thrown := DestroySlots(tail, head, None, 0);
      } else {
        calls, thrown := DestroySlots(first, head, None, 0);
        // the source's do-while over [tail, last]: its first test always holds
        calls, thrown := DestroySlots(tail, last + 1, None, calls);
      }
      freed := true;
    }

    /**
     * destroy() for element types whose destructor may throw. The live slots
     * are visited in TeardownOrder; `throwAt`, when given, is the index in
     * that order of the destructor call that throws. That throw ends the
     * teardown: the slots after it are left as they are (their elements
     * leak), the arena is released all the same, and destroy() rethrows the
     * exception. Its only caller, the class destructor, is implicitly
     * noexcept, so in the program that rethrow ends in std::terminate.
     */
    method DestroyRollback(throwAt: Option<nat>) returns (thrown: Option<Error>)
      requires Valid()
      modifies this, arena
      ensures freed
      ensures var order := old(TeardownOrder(tail, head, last));
              var calls := if throwAt.Some? && throwAt.value < |order| then throwAt.value + 1 else |order|;
              && thrown == (if throwAt.Some? && throwAt.value < |order| then Some(DestructorThrew) else None)
              && destroyed == old(destroyed) + calls
              && (forall j :: 0 <= j < |order| ==> arena[order[j]] == if j < calls then Raw else old(arena[order[j]]))
              && (forall i :: 0 <= i < arena.Length && i !in order ==> arena[i] == old(arena[i]))
              && constructed == destroyed + (|order| - calls)
      ensures constructed == old(constructed)
      ensures thrown == None ==> constructed == destroyed
    {
      ghost var order := TeardownOrder(tail, head, last);
      TeardownOrderAt(tail, head, last);
      var calls: nat;
      if tail <= head {
        calls, thrown := DestroySlots(tail, head, throwAt, 0);
      } else {
        calls, thrown := DestroySlots(first, head, throwAt, 0);
        if thrown == None {
          // the source's do-while over [tail, last]: its first test always holds
          calls, thrown := DestroySlots(tail, last + 1, throwAt, calls);
        }
      }
      // released on the normal path and, in the source's catch block, before rethrowing
      freed := true;
    }
  }
}
