# SingleWriterRingBuffer, modelled in Dafny

`SingleWriterRingBuffer<T>` is a fixed-capacity ring buffer. One producer
inserts with `emplace_front` / `push_front` and never blocks: when the buffer
is full, the oldest element is destroyed to make room. Consumers remove the
oldest element with `try_pop_back`. Storage is one arena of `capacity + 1`
raw slots between the pointers `first` and `last = first + capacity`. `head`
names the next slot to write and `tail` the oldest live slot. The spare slot
tells "empty" (`head == tail`) apart from "full" without a count field.

The model has four modules:

- `Cursors` (cursors.dfy): the cursor arithmetic. Pointers become slot
  indices `0 .. last`. It covers wrap-around (`Next`), the `next_head` /
  `next_tail` pair of `emplace_front` (`Advance`), the cyclic live range
  `[tail, head)` (`InLive`), its size (`LiveCount`), the k-th oldest slot
  (`Position`) and the visiting order of `destroy()` (`TeardownOrder`).
- `Fifo` (fifo.dfy): the abstract contents, a sequence with the oldest
  element first. A write appends and, when the buffer is full, drops the
  oldest element (`Overwrite`). `InsertAllKeepsLatest` proves that a buffer
  of capacity C fed any sequence holds exactly that sequence's latest C values.
- `RingBuffer` (single_writer_ring_buffer.dfy): the class
  `SingleWriterRingBuffer<T>`. It has the arena as an `array<Slot<T>>`, the
  constants `first` and `last`, and the cursor fields `head` and `tail`.
  Ghost fields hold the contents, the counts of element constructions and
  destructions, and a "freed" flag. The object invariant `Valid()` says:
  - the live slots are exactly the cyclic range `[tail, head)`;
  - those slots hold `Contents` in order from `tail`;
  - constructions equal destructions plus the live count, and the live count
    is at most the capacity.

  Constructing into a slot requires it to be raw (`ConstructAt`). Destroying
  a slot requires it to be live (`DestroyAt`). Every placement-new and every
  destructor call of the source goes through these two, so no slot is
  constructed twice or destroyed twice.
- `Scenarios` (scenarios.dfy): clients that use the class only through its
  contracts. They cover draining after overflow, teardown after any run of
  inserts, and the wrapped-cursor drain.

A slot is `Raw` (uninitialised memory) or `Live(value)`. The code never tests
this tag; it decides everything from the cursors, as the source does. The tag
only makes "construct only into a dead slot, destroy only a live slot"
checkable. Element constructors, moves and destructors are visible only
through the ghost counters. Whether one of them throws is an explicit input:
`evictThrows` (the evicted element's destructor in `emplace_front`),
`ctorThrows`, `moveThrows`, `destroyThrows`, or `throwAt` for the teardown.
The C++ exceptions become `Option<Error>` / `Result` return values.

The model keeps two orderings of the code exactly as written:

- When the live range wraps, `destroy()` destroys `[first, head)` first and
  then `[tail, last]`.
- The no-throw `try_pop_back` stores the advanced `tail` before it moves the
  element out and destroys it.

## Model

| member | source | states |
|---|---|---|
| `Cursors.Next` | include/single_writer_ring_buffer/single_writer_ring_buffer.hpp:136-137 | the slot after `p` stays in `[first, last]` and equals `(p + 1) mod (capacity + 1)`: `last` wraps to `first` |
| `Cursors.Advance` | include/single_writer_ring_buffer/single_writer_ring_buffer.hpp:73-82 | `next_head = wrap(head + 1)` and `next_tail = wrap(next_head + 1)`, including the unguarded `first + 1` branch; both lie in `[first, last]`; `next_head` differs from `head` and from `next_tail` |
| `Cursors.LiveCount` | include/single_writer_ring_buffer/single_writer_ring_buffer.hpp:130-131 | the number of live elements, `(head - tail) mod (capacity + 1)`, is at most the capacity, and is 0 exactly when `head == tail` |
| `Cursors.Position` | include/single_writer_ring_buffer/single_writer_ring_buffer.hpp:136-144 | the slot of the element k places younger than the one at `tail` lies in the arena and is `(tail + k) mod (capacity + 1)` |
| `Cursors.TeardownOrder` | include/single_writer_ring_buffer/single_writer_ring_buffer.hpp:229-242 | destroy()'s visiting order (`[tail, head)`, or `[first, head)` then `[tail, last]`) has one entry per live element; every entry is a live slot; every live slot appears in it; and no slot appears twice |
| `Cursors.TeardownOrderAt` | include/single_writer_ring_buffer/single_writer_ring_buffer.hpp:229-242 | the j-th destructor call of destroy() lands on `tail + j` without wraparound; with wraparound it lands on `j` for `j < head` and on `tail + (j - head)` after that |
| `Cursors.OldestFirst` | include/single_writer_ring_buffer/single_writer_ring_buffer.hpp:130-144 | walking forward from `tail` for LiveCount steps visits only live slots, and every live slot is reached after fewer than LiveCount steps |
| `Cursors.EvictIffFull` | include/single_writer_ring_buffer/single_writer_ring_buffer.hpp:84-92 | the eviction test `tail == next_head` holds exactly when the buffer already holds `capacity` elements |
| `Cursors.DropOldest` | include/single_writer_ring_buffer/single_writer_ring_buffer.hpp:134-144 | on a non-empty buffer, moving `tail` forward removes exactly the slot at `tail` from the live range; it lowers the count by one and shifts positions by one |
| `Cursors.AddYoungest` | include/single_writer_ring_buffer/single_writer_ring_buffer.hpp:94-101 | unless the next slot is `tail`, the slot at `head` is not live; moving `head` forward adds exactly that slot, as the youngest, and raises the count by one |
| `Cursors.StepsWrap` | include/single_writer_ring_buffer/single_writer_ring_buffer.hpp:75-82 | within one lap, advancing a cursor k times with wraparound lands on `(p + k) mod (capacity + 1)`, the k-th slot after `p`; a full lap of `capacity + 1` steps returns to `p` |
| `Fifo.Overwrite` | include/single_writer_ring_buffer/single_writer_ring_buffer.hpp:84-101 | one write keeps the latest `capacity` values of the contents followed by `x`: `x` is newest and the size is at most the capacity; it grows by one exactly when the buffer was not full |
| `Fifo.InsertAll` | include/single_writer_ring_buffer/single_writer_ring_buffer.hpp:65-102 | after a run of writes, the size is the old size plus the writes, capped at the capacity |
| `Fifo.InsertAllKeepsLatest` | include/single_writer_ring_buffer/single_writer_ring_buffer.hpp:84-101 | a buffer holding `contents` and then fed `xs` holds exactly the latest `capacity` values of `contents + xs`, oldest first |
| `RingBuffer.SingleWriterRingBuffer.Allocate` | include/single_writer_ring_buffer/single_writer_ring_buffer.hpp:204-221 | capacity 0 fails with invalid_argument; otherwise the result is fresh storage of `capacity + 1` raw slots |
| `RingBuffer.SingleWriterRingBuffer.FromArena` | include/single_writer_ring_buffer/single_writer_ring_buffer.hpp:50-55 | the initialisers `last = first + capacity` and `head = tail = first` give a valid, empty buffer with nothing constructed |
| `RingBuffer.SingleWriterRingBuffer.New` | include/single_writer_ring_buffer/single_writer_ring_buffer.hpp:50-55 | capacity 0 fails with invalid_argument; any other capacity gives a valid buffer over `capacity + 1` fresh slots, with `last = first + capacity`, `head == tail == first`, empty contents and no element constructed or destroyed |
| `RingBuffer.SingleWriterRingBuffer.ConstructAt` | include/single_writer_ring_buffer/single_writer_ring_buffer.hpp:94 | placement-new is only allowed on a raw slot; it makes that slot hold `x`, counts one construction and touches no other slot |
| `RingBuffer.SingleWriterRingBuffer.DestroyAt` | include/single_writer_ring_buffer/single_writer_ring_buffer.hpp:92 | a destructor call is only allowed on a live slot; it makes that slot raw, counts one destruction and touches no other slot |
| `RingBuffer.SingleWriterRingBuffer.Evict` | include/single_writer_ring_buffer/single_writer_ring_buffer.hpp:84-92 | after a successful compare-and-swap `tail == next_head`, moves `tail` to `next_tail` and destroys that one oldest element; the contents lose their oldest element, `head` stays, and the invariant is kept |
| `RingBuffer.SingleWriterRingBuffer.Publish` | include/single_writer_ring_buffer/single_writer_ring_buffer.hpp:94-101 | when the slot after `head` is not `tail`, constructs `x` in the raw `head` slot and moves `head` to `next_head`; `x` becomes the newest element, no other slot changes, and the invariant is kept |
| `RingBuffer.SingleWriterRingBuffer.EmplaceFront` | include/single_writer_ring_buffer/single_writer_ring_buffer.hpp:65-102 | eviction happens exactly when `tail == next_head`, i.e. when the buffer is full. It destroys that one element and sets `tail := next_tail`; otherwise `tail` is unchanged. Then exactly one element is constructed, in the old `head` slot, which was raw, and `head := next_head`. The buffer is then non-empty and the contents are `Overwrite(old contents, x)`. No other slot changes, and the invariant is kept. If the evicted element's destructor throws (reported as DestructorThrew, before the constructor could run) or the constructor throws (ConstructorThrew), the eviction stands and `head`, the `head` slot and the construction count stay the same |
| `RingBuffer.SingleWriterRingBuffer.PushFront` | include/single_writer_ring_buffer/single_writer_ring_buffer.hpp:105-115 | both push_front overloads have the whole effect of emplace_front: the same eviction test, cursor moves, construction and destruction counts, slot frame, contents and both throwing cases |
| `RingBuffer.SingleWriterRingBuffer.TryPopBack` | include/single_writer_ring_buffer/single_writer_ring_buffer.hpp:118-153 | empty (`tail == head`): returns nothing and leaves cursors, slots, contents and counters unchanged. Otherwise: returns the element at `tail`, which is the oldest, destroys that slot only, advances `tail` with wraparound, keeps `head`, drops the oldest element from the contents and keeps the invariant |
| `RingBuffer.SingleWriterRingBuffer.TryPopBackRollback` | include/single_writer_ring_buffer/single_writer_ring_buffer.hpp:156-199 | the empty case is as in TryPopBack. A throwing move reports the error and leaves `tail`, slots, contents and counters unchanged. A successful move hands out the oldest element, destroys its slot and advances `tail`, and this holds even when that destructor then throws, which is reported. `head` never changes and the invariant is kept |
| `RingBuffer.SingleWriterRingBuffer.DestroySlots` | include/single_writer_ring_buffer/single_writer_ring_buffer.hpp:253-265 | one teardown loop destroys slots `lo, lo + 1, ...` in order and stops right after the call that throws; exactly the slots it reached become raw, and the counters record the calls made |
| `RingBuffer.SingleWriterRingBuffer.Destroy` | include/single_writer_ring_buffer/single_writer_ring_buffer.hpp:224-245 | every slot of the cyclic live range is destroyed exactly once and no other slot is; every slot is then raw, the arena is freed, and constructions equal destructions |
| `RingBuffer.SingleWriterRingBuffer.DestroyRollback` | include/single_writer_ring_buffer/single_writer_ring_buffer.hpp:247-275 | slots are destroyed in TeardownOrder up to and including the throwing call; the slots after it are left live, other slots are untouched, and the arena is freed on both paths. destroy() reports a throw exactly when it happens within the live range. No element is constructed; after a throw, the elements still constructed and not destroyed are exactly the live slots left after the throwing call (the leak). Without a throw, constructions equal destructions |
| `Scenarios.Drain` | include/single_writer_ring_buffer/single_writer_ring_buffer.hpp:118-153 | removing until try_pop_back reports empty yields the whole contents in FIFO order and constructs nothing |
| `Scenarios.PushAll` | include/single_writer_ring_buffer/single_writer_ring_buffer.hpp:65-102 | a run of emplace_front calls leaves the latest `capacity` values of the old contents followed by the run, constructs one element per call, and moves `head` forward one slot (with wraparound) per call |
| `Scenarios.InsertThenDrain` | include/single_writer_ring_buffer/single_writer_ring_buffer.hpp:50-153 | capacity 0 fails with invalid_argument. Otherwise inserting `xs` and draining yields exactly the latest C values of `xs` in insertion order: with `C + k` inserts the k oldest are never observed, and with exactly C inserts all of them come out in order |
| `Scenarios.InsertThenDestroy` | src/single_writer_ring_buffer/test/test_single_writer_ring_buffer_destruction.cpp:25-65 | for any capacity ≥ 1 and any run of inserts followed by teardown, constructions and destructions both equal the number of inserts, evictions included; capacity 0 fails |
| `Scenarios.WrappedDrain` | include/single_writer_ring_buffer/single_writer_ring_buffer.hpp:65-153 | capacity 5: five inserts, two removals (which yield the first two values) and two more inserts leave the cursors wrapped at `tail == 2`, `head == 1`, and the drain yields the remaining five values in FIFO order |

## Left out

- Atomics, memory orders and fences: every operation is modelled as one sequential step, so no interleaving of producer and consumers is covered. This includes the deferred eviction when the producer's compare-and-swap meets a locked `tail`.
- The consumer's claim on `tail` (exchanging it with `nullptr` and spinning): sequentially the first exchange always succeeds, so `TryPopBack` and `TryPopBackRollback` read `tail` directly and there is no locked state.
- `Allocate` and `New`: the byte count `sizeof(T) * (capacity + 1)` at include/single_writer_ring_buffer/single_writer_ring_buffer.hpp:214 is assumed to fit in `std::size_t`. With a capacity above `SIZE_MAX / sizeof(T) - 1` the product wraps and `malloc` can return a block shorter than `capacity + 1` slots (capacity `SIZE_MAX` even asks for 0 bytes). The model always gives `capacity + 1` slots.
- `TryPopBack`: the no-throw overload is chosen by `is_nothrow_move_constructible` and `is_nothrow_destructible` (include/single_writer_ring_buffer/single_writer_ring_buffer.hpp:35-39), but line 142 is a move assignment, which those traits do not cover. The model assumes that move assignment cannot throw either. If it did, the exception would leave after `tail` has advanced and before `~T()` runs. That element would be leaked outside the live range and later overwritten by placement-new, so constructions would no longer equal destructions.
- `malloc`, `free` and `bad_alloc`: `Allocate` uses `new` on a Dafny array and cannot fail for lack of memory; releasing the arena is the ghost flag `freed`.
- The compile-time choice between the two `try_pop_back` and the two `destroy` overloads: each overload is its own method, and the caller picks one. Both `destroy` overloads test `is_nothrow_destructible` with the same sign, because the `!` is missing at include/single_writer_ring_buffer/single_writer_ring_buffer.hpp:28-32; that compile-time defect is not modelled.
- Element values beyond identity: the caller's output variable `value` is the returned `Option<T>`. A move leaves the moved-from slot's value as it was. A destructor that throws still counts as a completed destruction, since the object's lifetime has ended.
- `Destroy`: a destructor that throws inside this `noexcept` overload would terminate the program; the model assumes no destructor throws there.
- `~SingleWriterRingBuffer` itself (an acquire fence followed by `destroy()`, include/single_writer_ring_buffer/single_writer_ring_buffer.hpp:57-63) has no method of its own; `Destroy` and `DestroyRollback` model `destroy()`. `DestroyRollback` reports the rethrown exception only as `destroy()` passes it on: the class destructor is implicitly `noexcept`, so in the program that rethrow ends in `std::terminate` and never reaches a caller.
- The repository-root single_writer_ring_buffer.hpp is an earlier draft that does not compile, and test/include/mail_box/mail_box.hpp is a test-only sink; neither is part of this model.
