/** The capacity each growing operation asks reserve for, and what a run of
    push_back calls costs under that policy. */
module Growth {

  /** Capacity after push_back's growth step: reserve(8) on a vector with no
      storage, reserve(2 * capacity) on a full one, nothing otherwise. */
  function PushBackCapacity(size: nat, capacity: nat): (r: nat)
    requires size <= capacity
    ensures size < r
    ensures capacity <= r
    ensures size < capacity ==> r == capacity
  {
    if capacity == 0 then 8 else if size == capacity then 2 * capacity else capacity
  }

  /** Capacity after insert's growth step: resize(2 * size) on a full vector,
      and resize leaves the capacity alone unless the target is larger. */
  function InsertCapacity(size: nat, capacity: nat): (r: nat)
    requires size <= capacity
    ensures capacity <= r
    ensures size < capacity ==> r == capacity
    ensures size < r <==> 0 < capacity
  {
    if size == capacity && capacity < 2 * size then 2 * size else capacity
  }

  /** Size, capacity and the number of element copies made by reserve so far. */
  datatype PushHistory = PushHistory(size: nat, capacity: nat, copies: nat)

  /** The history of `n` push_back calls on a vector created with capacity 0:
      each growth copies the `size` live elements into the new block. */
  function AfterPushes(n: nat): (h: PushHistory)
    ensures h.size == n
    ensures h.size <= h.capacity
  {
    if n == 0 then PushHistory(0, 0, 0)
    else
      var h := AfterPushes(n - 1);
      PushHistory(n, PushBackCapacity(h.size, h.capacity),
                  h.copies + if h.size == h.capacity then h.size else 0)
  }

  /** The capacities the growth policy can produce from 0: 8, 16, 32, ... */
  ghost predicate EightTimesPowerOfTwo(c: nat)
  {
    c == 8 || (8 < c && c % 2 == 0 && EightTimesPowerOfTwo(c / 2))
  }

  /** After n >= 1 pushes from capacity 0 the capacity is 8 * 2^k, holds all n
      elements, is at most about twice n, and exceeds the copies made by 8. */
  lemma {:induction false} PushesFromEmpty(n: nat)
    requires 0 < n
    ensures EightTimesPowerOfTwo(AfterPushes(n).capacity)
    ensures n <= AfterPushes(n).capacity
    ensures AfterPushes(n).capacity == 8 || AfterPushes(n).capacity <= 2 * (n - 1)
    ensures AfterPushes(n).copies + 8 == AfterPushes(n).capacity
  {
    if 1 < n {
      PushesFromEmpty(n - 1);
      var h := AfterPushes(n - 1);
      if h.size == h.capacity {
        assert (2 * h.capacity) / 2 == h.capacity;
      }
    }
  }

  /** Amortized constant-time push_back: n pushes copy at most 2n elements. */
  lemma {:induction false} AmortizedCopies(n: nat)
    ensures AfterPushes(n).copies <= 2 * n
  {
    if 0 < n {
      PushesFromEmpty(n);
    }
  }
}
