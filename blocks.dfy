/** What both headers share: how an operation ends, and the element-by-element
    copies into a freshly allocated block (`new T[cap]`, every slot holding the
    default-constructed value `blank`) that insert, erase, reserve and
    shrink_to_fit perform before swapping the new block in. */
module Blocks {
  import opened Sequences

  datatype Option<T> = None | Some(value: T)

  /** The result of the checked accessor at(): the element, or std::out_of_range. */
  datatype Checked<T> = Value(value: T) | OutOfRange

  /** How a growing operation ends: normally; with the exception thrown by the
      copy of element `index` during reserve; at a write to slot `index` of a
      block of `length` slots, which is outside the block; or at `pos - begin()`
      with `pos` pointing into a block that has already been freed. The last two
      are undefined behaviour in the source, so the model stops there. */
  datatype Outcome =
    | Done
    | CopyFailed(index: nat)
    | WriteOutOfBounds(index: nat, length: nat)
    | StalePointer

  /** A `const T*` into a block: the block it points into and its offset. */
  datatype Pointer<T> = Pointer(block: array<T>, offset: nat)

  /** `pos - begin()` with begin() the start of `base`: defined only when `pos`
      points into that same block. */
  function Offset<T>(pos: Pointer<T>, base: array<T>): Option<nat>
  {
    if pos.block == base then Some(pos.offset) else None
  }

  /** The copy of some element below `count` throws, given that the copy of
      element failAt.value is the one that throws. */
  predicate CopyFails(failAt: Option<nat>, count: nat)
  {
    failAt.Some? && failAt.value < count
  }

  /** new T[cap], then dst[i] = src[i] for i in [0, n). */
  method CopyPrefix<T>(src: array<T>, n: nat, cap: nat, blank: T) returns (dst: array<T>)
    requires n <= src.Length && n <= cap
    ensures fresh(dst)
    ensures dst[..] == Pad(src[..n], cap, blank)
  {
    dst := new T[cap](_ => blank);
    for i := 0 to n
      invariant forall k :: 0 <= k < i ==> dst[k] == src[k]
      invariant forall k :: i <= k < cap ==> dst[k] == blank
    {
      dst[i] := src[i];
    }
    assert dst[..] == Pad(src[..n], cap, blank);
  }

  /** insert's copy: new T[cap], the elements before p, the value at p, then the
      elements from p on shifted one slot toward the end. */
  method CopyInserting<T>(src: array<T>, n: nat, p: nat, value: T, cap: nat, blank: T)
    returns (dst: array<T>)
    requires p <= n <= src.Length && n < cap
    ensures fresh(dst)
    ensures dst[..] == Pad(InsertAt(src[..n], p, value), cap, blank)
  {
    dst := new T[cap](_ => blank);
    for i := 0 to p
      invariant forall k :: 0 <= k < i ==> dst[k] == src[k]
      invariant forall k :: i <= k < cap ==> dst[k] == blank
    {
      dst[i] := src[i];
    }
    dst[p] := value;
    for i := p + 1 to n + 1
      invariant forall k :: 0 <= k < p ==> dst[k] == src[k]
      invariant dst[p] == value
      invariant forall k :: p < k < i ==> dst[k] == src[k - 1]
      invariant forall k :: i <= k < cap ==> dst[k] == blank
    {
      dst[i] := src[i - 1];
    }
    assert dst[..] == Pad(InsertAt(src[..n], p, value), cap, blank);
  }

  /** erase's copy: new T[cap], the elements before p, then the elements after p
      shifted one slot toward the start. */
  method CopyRemoving<T>(src: array<T>, n: nat, p: nat, cap: nat, blank: T) returns (dst: array<T>)
    requires p < n <= src.Length && n <= cap
    ensures fresh(dst)
    ensures dst[..] == Pad(RemoveAt(src[..n], p), cap, blank)
  {
    dst := new T[cap](_ => blank);
    for i := 0 to p
      invariant forall k :: 0 <= k < i ==> dst[k] == src[k]
      invariant forall k :: i <= k < cap ==> dst[k] == blank
    {
      dst[i] := src[i];
    }
    for i := p + 1 to n
      invariant forall k :: 0 <= k < p ==> dst[k] == src[k]
      invariant forall k :: p <= k < i - 1 ==> dst[k] == src[k + 1]
      invariant forall k :: i - 1 <= k < cap ==> dst[k] == blank
    {
      dst[i - 1] := src[i];
    }
    assert dst[..] == Pad(RemoveAt(src[..n], p), cap, blank);
  }
}
