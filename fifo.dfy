/**
 * The abstract contents of an overwrite-oldest ring buffer: a FIFO sequence,
 * oldest first, that never holds more than the capacity. A write appends the
 * new value and, when the buffer is already full, drops the oldest one.
 */
module Fifo {

  /** The last `n` elements of `s` (all of `s` when it is shorter). */
  function Latest<T>(s: seq<T>, n: nat): seq<T>
  {
    if |s| <= n then s else s[|s| - n..]
  }

  /** The contents after writing `x` into a buffer holding `contents`. */
  function Overwrite<T>(contents: seq<T>, x: T, capacity: nat): (r: seq<T>)
    requires 1 <= capacity && |contents| <= capacity
    ensures r == Latest(contents + [x], capacity)
    ensures 1 <= |r| <= capacity && r[|r| - 1] == x
    ensures |contents| < capacity <==> |r| == |contents| + 1
  {
    if |contents| == capacity then contents[1..] + [x] else contents + [x]
  }

  /** The contents after writing every element of `xs`, in order, into a buffer holding `contents`. */
  function InsertAll<T>(contents: seq<T>, xs: seq<T>, capacity: nat): (r: seq<T>)
    requires 1 <= capacity && |contents| <= capacity
    ensures |r| == if |contents| + |xs| <= capacity then |contents| + |xs| else capacity
  {
    if xs == [] then contents
    else Overwrite(InsertAll(contents, xs[..|xs| - 1], capacity), xs[|xs| - 1], capacity)
  }

  /** Keeping the latest `n` before appending changes nothing about the latest `n` after. */
  lemma LatestThenAppend<T>(s: seq<T>, x: T, n: nat)
    requires 1 <= n
    ensures Latest(Latest(s, n) + [x], n) == Latest(s + [x], n)
  {
  }

  /**
   * A buffer of capacity C holding `contents` and then fed the sequence `xs`
   * holds exactly the latest C values of contents + xs, oldest first: the
   * older ones have been evicted.
   */
  lemma {:induction false} InsertAllKeepsLatest<T>(contents: seq<T>, xs: seq<T>, capacity: nat)
    requires 1 <= capacity && |contents| <= capacity
    ensures InsertAll(contents, xs, capacity) == Latest(contents + xs, capacity)
  {
    if xs == [] {
      assert contents + xs == contents;
    } else {
      var init, x := xs[..|xs| - 1], xs[|xs| - 1];
      InsertAllKeepsLatest(contents, init, capacity);
      LatestThenAppend(contents + init, x, capacity);
      assert contents + init + [x] == contents + xs;
    }
  }
}
