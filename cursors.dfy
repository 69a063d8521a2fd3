/**
 * Cursor arithmetic of the single-writer ring buffer.
 *
 * The arena has `last + 1` slots, addressed 0 (the source's `first`) through
 * `last`. A buffer of capacity C has `last == C`, so one slot is always spare
 * and "empty" is told apart from "full" by cursor equality alone. The live
 * elements occupy the cyclic range [tail, head), oldest at `tail`.
 */
module Cursors {

  /** The slot after `p`, wrapping from `last` back to the first slot. */
  function Next(p: nat, last: nat): (r: nat)
    requires p <= last
    ensures r <= last
    ensures r == (p + 1) % (last + 1)
  {
    if p == last then 0 else p + 1
  }

  /** The slot reached from `p` after `k` single steps of Next. */
  function Steps(p: nat, k: nat, last: nat): (r: nat)
    requires p <= last
    ensures r <= last
  {
    if k == 0 then p else Next(Steps(p, k - 1, last), last)
  }

  /**
   * Within one lap, k steps from `p` land on the k-th slot after `p`,
   * `(p + k) mod (last + 1)`; a full lap of last + 1 steps comes back to `p`.
   */
  lemma {:induction false} StepsWrap(p: nat, k: nat, last: nat)
    requires p <= last && k <= last + 1
    ensures Steps(p, k, last) == if p + k <= last then p + k else p + k - (last + 1)
    ensures k <= last ==> Steps(p, k, last) == Position(p, k, last) == (p + k) % (last + 1)
    ensures k == last + 1 ==> Steps(p, k, last) == p
  {
    if k > 0 {
      StepsWrap(p, k - 1, last);
    }
  }

  /**
   * The pair (next_head, next_tail) that emplace_front computes from the
   * current head. The branch for `currentHead == last` does not wrap its
   * `next_head + 1`; that is safe because the arena has at least two slots.
   */
  function Advance(currentHead: nat, last: nat): (r: (nat, nat))
    requires 1 <= last && currentHead <= last
    ensures r.0 == Next(currentHead, last) && r.1 == Next(r.0, last)
    ensures r.0 != currentHead && r.1 != r.0
  {
    if currentHead == last then
      (0, 0 + 1)
    else
      var nextHead := currentHead + 1;
      (nextHead, if nextHead == last then 0 else nextHead + 1)
  }

  /**
   * Slot `i` lies in the cyclic live range [tail, head). When the range wraps
   * (tail > head) it is the two pieces [first, head) and [tail, last].
   */
  predicate InLive(tail: nat, head: nat, last: nat, i: nat)
  {
    if tail <= head then tail <= i < head else i < head || tail <= i <= last
  }

  /** The number of live elements between the two cursors. */
  function LiveCount(tail: nat, head: nat, last: nat): (n: nat)
    requires tail <= last && head <= last
    ensures n <= last
    ensures n == 0 <==> tail == head
    ensures n == (head - tail) % (last + 1)
  {
    if tail <= head then head - tail else head + (last + 1) - tail
  }

  /** The slot holding the element that is `k` places younger than the one at `tail`. */
  function Position(tail: nat, k: nat, last: nat): (r: nat)
    requires tail <= last && k <= last
    ensures r <= last
    ensures r == (tail + k) % (last + 1)
  {
    if tail + k <= last then tail + k else tail + k - (last + 1)
  }

  /** The slots a, a + 1, ..., b - 1 in increasing order. */
  function Range(a: nat, b: nat): seq<nat>
    requires a <= b
  {
    seq(b - a, j => a + j)
  }

  /**
   * The order in which destroy() visits the live slots: [tail, head) when the
   * range does not wrap, otherwise [first, head) followed by [tail, last].
   * Every live slot is visited exactly once and no other slot is.
   */
  function TeardownOrder(tail: nat, head: nat, last: nat): (order: seq<nat>)
    requires tail <= last && head <= last
    ensures |order| == LiveCount(tail, head, last)
    ensures forall j :: 0 <= j < |order| ==> order[j] <= last && InLive(tail, head, last, order[j])
    ensures forall i :: 0 <= i <= last && InLive(tail, head, last, i) ==> i in order
    ensures forall j, j' :: 0 <= j < j' < |order| ==> order[j] != order[j']
  {
    var order := if tail <= head then Range(tail, head) else Range(0, head) + Range(tail, last + 1);
    assert forall i :: 0 <= i <= last && InLive(tail, head, last, i) ==>
      order[if tail <= head then i - tail else if i < head then i else head + (i - tail)] == i;
    order
  }

  /** Where the j-th destructor call of destroy() lands. */
  lemma TeardownOrderAt(tail: nat, head: nat, last: nat)
    requires tail <= last && head <= last
    ensures forall j :: 0 <= j < |TeardownOrder(tail, head, last)| ==>
              TeardownOrder(tail, head, last)[j] == if tail <= head then tail + j else if j < head then j else tail + (j - head)
  {
  }

  /**
   * Reading the live range from `tail` onwards visits each live slot once:
   * the first LiveCount positions are live and every live slot is one of them.
   */
  lemma OldestFirst(tail: nat, head: nat, last: nat)
    requires tail <= last && head <= last
    ensures forall k :: 0 <= k < LiveCount(tail, head, last) ==> InLive(tail, head, last, Position(tail, k, last))
    ensures forall i :: 0 <= i <= last && InLive(tail, head, last, i) ==>
              LiveCount(tail, i, last) < LiveCount(tail, head, last) &&
              Position(tail, LiveCount(tail, i, last), last) == i
  {
  }

  /**
   * The eviction test of emplace_front, `tail == next_head`, holds exactly
   * when the buffer already holds `last` (its capacity) elements.
   */
  lemma EvictIffFull(tail: nat, head: nat, last: nat)
    requires 1 <= last && tail <= last && head <= last
    ensures tail == Advance(head, last).0 <==> LiveCount(tail, head, last) == last
  {
  }

  /** Moving `tail` one slot forward drops the oldest live slot and nothing else. */
  lemma DropOldest(tail: nat, head: nat, last: nat)
    requires tail <= last && head <= last && tail != head
    ensures InLive(tail, head, last, tail)
    ensures LiveCount(Next(tail, last), head, last) == LiveCount(tail, head, last) - 1
    ensures forall i :: 0 <= i <= last ==>
              (InLive(Next(tail, last), head, last, i) <==> InLive(tail, head, last, i) && i != tail)
    ensures forall k :: 0 <= k < last ==> Position(Next(tail, last), k, last) == Position(tail, k + 1, last)
  {
  }

  /**
   * Moving `head` one slot forward, when that does not run into `tail`, adds
   * exactly the slot at `head`, as the youngest element.
   */
  lemma AddYoungest(tail: nat, head: nat, last: nat)
    requires tail <= last && head <= last && tail != Next(head, last)
    ensures !InLive(tail, head, last, head)
    ensures LiveCount(tail, head, last) < last
    ensures LiveCount(tail, Next(head, last), last) == LiveCount(tail, head, last) + 1
    ensures forall i :: 0 <= i <= last ==>
              (InLive(tail, Next(head, last), last, i) <==> InLive(tail, head, last, i) || i == head)
    ensures Position(tail, LiveCount(tail, head, last), last) == head
  {
  }
}
